/**
 * The index-vector search of class LocalVariantSetEnsemble: one chosen
 * catalogue entry per window, advanced from a guide window g like a
 * mixed-radix counter with carry until every adjacent pair of choices
 * overlaps (getMismatchIndexFwd/Rwd, updateMatchingSet, consistentOverlaps).
 *
 * The digits are read in the order g, g+1, ..., n-1, g-1, ..., 0; every
 * update moves the vector strictly forward in that order, which bounds the
 * search by the number of index vectors.
 */
module IndexSearch {
  import opened Common
  import opened LocalVariants

  /** The windows' catalogues (lvse[i].lvsA), in window order. */
  type Catalogues = seq<seq<LocalVariant>>

  /** One valid position per window. */
  predicate InBounds(cs: Catalogues, u: seq<int>)
  {
    |u| == |cs| && forall i :: 0 <= i < |u| ==> 0 <= u[i] < |cs[i]|
  }

  /** The choices of windows i and i+1 overlap. */
  predicate PairOverlaps(cs: Catalogues, u: seq<int>, i: int)
    requires InBounds(cs, u) && 0 <= i < |cs| - 1
  {
    Overlaps(cs[i][u[i]], cs[i + 1][u[i + 1]])
  }

  /** Every adjacent pair of choices overlaps. */
  predicate Consistent(cs: Catalogues, u: seq<int>)
    requires InBounds(cs, u)
  {
    forall i :: 0 <= i < |cs| - 1 ==> PairOverlaps(cs, u, i)
  }

  /**
   * getMismatchIndexFwd: scanning the pairs (i, i+1) upward from g, one past
   * the first pair that does not overlap, or -1 when all of them do.
   */
  function MismatchFwd(cs: Catalogues, g: int, u: seq<int>): (r: int)
    requires InBounds(cs, u) && 0 <= g < |cs|
    ensures r == -1 <==> forall i :: g <= i < |cs| - 1 ==> PairOverlaps(cs, u, i)
    ensures r != -1 ==> g < r <= |cs| - 1 && !PairOverlaps(cs, u, r - 1)
    ensures r != -1 ==> forall i :: g <= i < r - 1 ==> PairOverlaps(cs, u, i)
    decreases |cs| - g
  {
    if g >= |cs| - 1 then -1
    else if !PairOverlaps(cs, u, g) then g + 1
    else MismatchFwd(cs, g + 1, u)
  }

  /**
   * getMismatchIndexRwd: scanning the pairs (i-1, i) downward from g, the
   * lower window of the first pair that does not overlap, or -1.
   */
  function MismatchRwd(cs: Catalogues, g: int, u: seq<int>): (r: int)
    requires InBounds(cs, u) && 0 <= g < |cs|
    ensures r == -1 <==> forall i :: 0 <= i < g ==> PairOverlaps(cs, u, i)
    ensures r != -1 ==> 0 <= r < g && !PairOverlaps(cs, u, r)
    ensures r != -1 ==> forall i :: r < i < g ==> PairOverlaps(cs, u, i)
  {
    if g == 0 then -1
    else if !PairOverlaps(cs, u, g - 1) then g - 1
    else MismatchRwd(cs, g - 1, u)
  }

  /** consistentOverlaps: false for null, otherwise the scan over all pairs. */
  function ConsistentOverlaps(cs: Catalogues, u: Option<seq<int>>): (b: bool)
    requires u.Some? ==> InBounds(cs, u.value)
    ensures b <==> u.Some? && Consistent(cs, u.value)
  {
    u.Some? && (|cs| == 0 || MismatchFwd(cs, 0, u.value) == -1)
  }

  /** Whatever the guide, the two scans find nothing exactly when the vector is consistent. */
  lemma NoMismatchIffConsistent(cs: Catalogues, g: int, u: seq<int>)
    requires InBounds(cs, u) && 0 <= g < |cs|
    ensures Consistent(cs, u) <==> MismatchFwd(cs, g, u) == -1 && MismatchRwd(cs, g, u) == -1
  {
  }

  /** The backward scan reads only the positions 0 .. g. */
  lemma {:induction false} RwdReadsPrefix(cs: Catalogues, g: int, u: seq<int>, v: seq<int>)
    requires InBounds(cs, u) && InBounds(cs, v) && 0 <= g < |cs|
    requires forall i :: 0 <= i <= g ==> u[i] == v[i]
    ensures MismatchRwd(cs, g, u) == MismatchRwd(cs, g, v)
  {
    if g > 0 {
      assert PairOverlaps(cs, u, g - 1) == PairOverlaps(cs, v, g - 1);
      RwdReadsPrefix(cs, g - 1, u, v);
    }
  }

  // ------------------------------------------------------------ the carry

  /** Positions lo .. hi hold the last entry of their catalogue. */
  predicate Saturated(cs: Catalogues, u: seq<int>, lo: int, hi: int)
    requires |u| == |cs| && 0 <= lo && hi < |cs|
  {
    forall i :: lo <= i <= hi ==> u[i] == |cs[i]| - 1
  }

  /** The forward repair carries all the way down to g. */
  predicate ReachesFwd(cs: Catalogues, g: int, u: seq<int>)
    requires InBounds(cs, u) && 0 <= g < |cs|
  {
    var f := MismatchFwd(cs, g, u);
    f != -1 && Saturated(cs, u, g + 1, f)
  }

  /** The backward repair carries all the way up to g. */
  predicate ReachesRwd(cs: Catalogues, g: int, u: seq<int>)
    requires InBounds(cs, u) && 0 <= g < |cs|
  {
    var w := MismatchRwd(cs, g, u);
    w != -1 && Saturated(cs, u, w, g - 1)
  }

  /** v restarts the search from the next entry of window g: all other positions are 0. */
  predicate IsRestart(u: seq<int>, v: seq<int>, g: int)
    requires 0 <= g < |u|
  {
    |v| == |u| && v[g] == u[g] + 1 && forall i :: 0 <= i < |v| && i != g ==> v[i] == 0
  }

  /**
   * The carry loop of the forward repair: position f0 is incremented, and
   * while it overflows and lies above g the carry moves one window down.
   * Every position passed over was saturated and now equals its size.
   */
  method CarryDown(cs: Catalogues, g: int, u: seq<int>, f0: int) returns (v: seq<int>, f: int)
    requires InBounds(cs, u) && 0 <= g < f0 < |cs|
    ensures g <= f <= f0 && |v| == |u|
    ensures forall i :: 0 <= i < |u| && (i < f || i > f0) ==> v[i] == u[i]
    ensures v[f] == u[f] + 1
    ensures forall i :: f < i <= f0 ==> v[i] == |cs[i]| && u[i] == |cs[i]| - 1
    ensures f > g ==> v[f] < |cs[f]|
  {
    v, f := u[f0 := u[f0] + 1], f0;
    while v[f] >= |cs[f]| && f > g
      invariant g <= f <= f0 && |v| == |u|
      invariant forall i :: 0 <= i < |u| && (i < f || i > f0) ==> v[i] == u[i]
      invariant v[f] == u[f] + 1
      invariant forall i :: f < i <= f0 ==> v[i] == |cs[i]| && u[i] == |cs[i]| - 1
    {
      f := f - 1;
      v := v[f := v[f] + 1];
    }
  }

  /** The carry loop of the backward repair, moving up toward g. */
  method CarryUp(cs: Catalogues, g: int, u: seq<int>, w0: int) returns (v: seq<int>, w: int)
    requires InBounds(cs, u) && 0 <= w0 < g < |cs|
    ensures w0 <= w <= g && |v| == |u|
    ensures forall i :: 0 <= i < |u| && (i < w0 || i > w) ==> v[i] == u[i]
    ensures v[w] == u[w] + 1
    ensures forall i :: w0 <= i < w ==> v[i] == |cs[i]| && u[i] == |cs[i]| - 1
    ensures w < g ==> v[w] < |cs[w]|
  {
    v, w := u[w0 := u[w0] + 1], w0;
    while v[w] >= |cs[w]| && w < g
      invariant w0 <= w <= g && |v| == |u|
      invariant forall i :: 0 <= i < |u| && (i < w0 || i > w) ==> v[i] == u[i]
      invariant v[w] == u[w] + 1
      invariant forall i :: w0 <= i < w ==> v[i] == |cs[i]| && u[i] == |cs[i]| - 1
    {
      w := w + 1;
      v := v[w := v[w] + 1];
    }
  }

  /** Positions lo .. hi-1 set to 0, the others kept. */
  method ZeroOut(u: seq<int>, lo: int, hi: int) returns (v: seq<int>)
    requires 0 <= lo && hi <= |u|
    ensures |v| == |u|
    ensures forall i :: 0 <= i < |u| ==> v[i] == (if lo <= i < hi then 0 else u[i])
  {
    v := u;
    var i := lo;
    while i < hi
      invariant (i == lo || lo <= i <= hi) && |v| == |u|
      invariant forall k :: 0 <= k < |u| ==> v[k] == (if lo <= k < i then 0 else u[k])
    {
      v := v[i := 0];
      i := i + 1;
    }
  }

  /**
   * The outcome of one repair pass of updateMatchingSet: the carry overflowed
   * window g (null), it landed on g (the search restarts), or it stopped short
   * of g and the method goes on with the vector.
   */
  datatype Repair = Overflow | Restart(v: seq<int>) | Continue(v: seq<int>)

  /**
   * updateMatchingSet: the forward repair increments the window after the
   * first failing pair above g and carries toward g; unless that lands on g,
   * the backward repair does the same below g with the mismatch found in the
   * original vector.  No result (null) when a carry overflows window g.
   */
  method UpdateMatchingSet(cs: Catalogues, g: int, indices: seq<int>) returns (r: Option<seq<int>>)
    requires InBounds(cs, indices) && 0 <= g < |cs|
    ensures r.Some? ==> InBounds(cs, r.value)
    ensures r.None? <==> Saturated(cs, indices, g, g) && (ReachesFwd(cs, g, indices) || ReachesRwd(cs, g, indices))
    ensures !Saturated(cs, indices, g, g) && (ReachesFwd(cs, g, indices) || ReachesRwd(cs, g, indices))
      ==> r.Some? && IsRestart(indices, r.value, g)
    ensures Consistent(cs, indices) ==> r == Some(indices)
    ensures r.Some? && !Consistent(cs, indices) ==> LexLess(Digits(indices, g), Digits(r.value, g))
    ensures NoneSkipped(cs, g, indices) && r.None? ==> forall x :: InBounds(cs, x) ==> !Consistent(cs, x)
    ensures NoneSkipped(cs, g, indices) && r.Some? ==> NoneSkipped(cs, g, r.value)
  {
    var u := indices;
    var f := MismatchFwd(cs, g, indices);
    var w := MismatchRwd(cs, g, indices);
    if f != -1 {
      var res := RepairFwd(cs, g, indices);
      if res.Overflow? {
        return None;
      } else if res.Restart? {
        return Some(res.v);
      }
      u := res.v;
    }
    if w != -1 {
      RwdReadsPrefix(cs, g, indices, u);
      assert Saturated(cs, u, w, g) == Saturated(cs, indices, w, g);
      var res := RepairRwd(cs, g, u, w);
      if res.Overflow? {
        return None;
      } else if res.Restart? {
        return Some(res.v);
      }
      if f != -1 {
        LexTrans(Digits(indices, g), Digits(u, g), Digits(res.v, g));
      }
      u := res.v;
    }
    return Some(u);
  }

  /** Lines 328-346: the forward repair above g. */
  method RepairFwd(cs: Catalogues, g: int, indices: seq<int>) returns (res: Repair)
    requires InBounds(cs, indices) && 0 <= g < |cs| && MismatchFwd(cs, g, indices) != -1
    ensures res.Overflow? <==> ReachesFwd(cs, g, indices) && Saturated(cs, indices, g, g)
    ensures res.Restart? <==> ReachesFwd(cs, g, indices) && !Saturated(cs, indices, g, g)
    ensures res.Restart? ==> InBounds(cs, res.v) && IsRestart(indices, res.v, g)
    ensures res.Continue? ==> InBounds(cs, res.v) && (forall i :: 0 <= i <= g ==> res.v[i] == indices[i])
    ensures res.Continue? ==> LexLess(Digits(indices, g), Digits(res.v, g))
    ensures NoneSkipped(cs, g, indices) && res.Overflow? ==> forall x :: InBounds(cs, x) ==> !Consistent(cs, x)
    ensures NoneSkipped(cs, g, indices) && !res.Overflow? ==> NoneSkipped(cs, g, res.v)
  {
    var f0 := MismatchFwd(cs, g, indices);
    var carried, f := CarryDown(cs, g, indices, f0);
    if f == g && carried[f] >= |cs[f]| {
      if NoneSkipped(cs, g, indices) {
        Exhausted(cs, g, indices);
      }
      return Overflow;
    }
    var u := ZeroOut(carried, f + 1, |cs|);
    if f == g {
      u := ZeroOut(u, 0, f);
      if NoneSkipped(cs, g, indices) {
        SkipRestart(cs, g, indices, u);
      }
      return Restart(u);
    }
    ContinuedFwd(cs, g, indices, carried, f, u);
    return Continue(u);
  }

  /** What the forward repair leaves when its carry stops above g. */
  lemma ContinuedFwd(cs: Catalogues, g: int, u: seq<int>, carried: seq<int>, f: int, v: seq<int>)
    requires InBounds(cs, u) && 0 <= g < f < |cs| && MismatchFwd(cs, g, u) != -1
    requires f <= MismatchFwd(cs, g, u) < |cs| && |carried| == |u| == |v|
    requires forall i :: 0 <= i < |u| && (i < f || i > MismatchFwd(cs, g, u)) ==> carried[i] == u[i]
    requires carried[f] == u[f] + 1 && carried[f] < |cs[f]|
    requires forall i :: f < i <= MismatchFwd(cs, g, u) ==> u[i] == |cs[i]| - 1
    requires forall i :: 0 <= i < |u| ==> v[i] == (if f + 1 <= i < |u| then 0 else carried[i])
    ensures InBounds(cs, v) && forall i :: 0 <= i <= g ==> v[i] == u[i]
    ensures LexLess(Digits(u, g), Digits(v, g))
    ensures NoneSkipped(cs, g, u) ==> NoneSkipped(cs, g, v)
  {
    forall i | 0 <= i < |v|
      ensures i < f ==> v[i] == u[i]
      ensures 0 <= v[i] < |cs[i]|
    {
      if i <= f {
        assert v[i] == carried[i];
      }
    }
    BumpedAbove(u, v, g, f);
    if NoneSkipped(cs, g, u) {
      SkipFwd(cs, g, u, v, f);
    }
  }

  /** Lines 347-365: the backward repair below g, from the mismatch w0. */
  method RepairRwd(cs: Catalogues, g: int, u: seq<int>, w0: int) returns (res: Repair)
    requires InBounds(cs, u) && 0 <= g < |cs| && w0 == MismatchRwd(cs, g, u) && w0 != -1
    ensures res.Overflow? <==> ReachesRwd(cs, g, u) && Saturated(cs, u, g, g)
    ensures res.Restart? <==> ReachesRwd(cs, g, u) && !Saturated(cs, u, g, g)
    ensures res.Restart? ==> InBounds(cs, res.v) && IsRestart(u, res.v, g)
    ensures res.Continue? ==> InBounds(cs, res.v) && (forall i :: g <= i < |u| ==> res.v[i] == u[i])
    ensures res.Continue? ==> LexLess(Digits(u, g), Digits(res.v, g))
    ensures NoneSkipped(cs, g, u) && res.Overflow? ==> forall x :: InBounds(cs, x) ==> !Consistent(cs, x)
    ensures NoneSkipped(cs, g, u) && !res.Overflow? ==> NoneSkipped(cs, g, res.v)
  {
    var carried, w := CarryUp(cs, g, u, w0);
    if w == g && carried[w] >= |cs[w]| {
      if NoneSkipped(cs, g, u) {
        Exhausted(cs, g, u);
      }
      return Overflow;
    }
    var v := ZeroOut(carried, 0, w);
    if w == g {
      v := ZeroOut(v, w + 1, |cs|);
      if NoneSkipped(cs, g, u) {
        SkipRestart(cs, g, u, v);
      }
      return Restart(v);
    }
    ContinuedRwd(cs, g, u, carried, w, v);
    return Continue(v);
  }

  /** What the backward repair leaves when its carry stops below g. */
  lemma ContinuedRwd(cs: Catalogues, g: int, u: seq<int>, carried: seq<int>, w: int, v: seq<int>)
    requires InBounds(cs, u) && 0 <= w < g < |cs| && MismatchRwd(cs, g, u) != -1
    requires MismatchRwd(cs, g, u) <= w && |carried| == |u| == |v|
    requires forall i :: 0 <= i < |u| && (i < MismatchRwd(cs, g, u) || i > w) ==> carried[i] == u[i]
    requires carried[w] == u[w] + 1 && carried[w] < |cs[w]|
    requires forall i :: MismatchRwd(cs, g, u) <= i < w ==> u[i] == |cs[i]| - 1
    requires forall i :: 0 <= i < |u| ==> v[i] == (if 0 <= i < w then 0 else carried[i])
    ensures InBounds(cs, v) && forall i :: g <= i < |u| ==> v[i] == u[i]
    ensures LexLess(Digits(u, g), Digits(v, g))
    ensures NoneSkipped(cs, g, u) ==> NoneSkipped(cs, g, v)
  {
    forall i | 0 <= i < |v|
      ensures w < i ==> v[i] == u[i]
      ensures 0 <= v[i] < |cs[i]|
    {
      if w <= i {
        assert v[i] == carried[i];
      }
    }
    BumpedBelow(u, v, g, w);
    if NoneSkipped(cs, g, u) {
      SkipRwd(cs, g, u, v, w);
    }
  }

  // ------------------------------------------------------------ digit order

  /** The positions of u in search order: g, g+1, ..., n-1, then g-1 down to 0. */
  function Digits(u: seq<int>, g: int): (d: seq<int>)
    requires 0 <= g < |u|
    ensures |d| == |u|
    ensures forall k :: 0 <= k < |u| - g ==> d[k] == u[g + k]
    ensures forall k :: |u| - g <= k < |u| ==> d[k] == u[|u| - 1 - k]
  {
    seq(|u|, k requires 0 <= k < |u| => if k < |u| - g then u[g + k] else u[|u| - 1 - k])
  }

  /** Strict lexicographic order on sequences of equal length. */
  predicate LexLess(a: seq<int>, b: seq<int>)
    requires |a| == |b|
  {
    a != [] && (a[0] < b[0] || (a[0] == b[0] && LexLess(a[1..], b[1..])))
  }

  /** a and b agree before k and a is smaller at k. */
  lemma {:induction false} LexAt(a: seq<int>, b: seq<int>, k: int)
    requires |a| == |b| && 0 <= k < |a|
    requires forall i :: 0 <= i < k ==> a[i] == b[i]
    requires a[k] < b[k]
    ensures LexLess(a, b)
  {
    if k > 0 {
      LexAt(a[1..], b[1..], k - 1);
    }
  }

  /** Raising position f > g, keeping the positions before it, moves forward in search order. */
  lemma BumpedAbove(u: seq<int>, v: seq<int>, g: int, f: int)
    requires |u| == |v| && 0 <= g <= f < |u|
    requires forall i :: 0 <= i < f ==> u[i] == v[i]
    requires u[f] < v[f]
    ensures LexLess(Digits(u, g), Digits(v, g))
  {
    LexAt(Digits(u, g), Digits(v, g), f - g);
  }

  /** Raising position w < g, keeping the positions after it, moves forward in search order. */
  lemma BumpedBelow(u: seq<int>, v: seq<int>, g: int, w: int)
    requires |u| == |v| && 0 <= w < g < |u|
    requires forall i :: w < i < |u| ==> u[i] == v[i]
    requires u[w] < v[w]
    ensures LexLess(Digits(u, g), Digits(v, g))
  {
    LexAt(Digits(u, g), Digits(v, g), |u| - 1 - w);
  }

  lemma {:induction false} LexTrans(a: seq<int>, b: seq<int>, c: seq<int>)
    requires |a| == |b| == |c| && LexLess(a, b) && LexLess(b, c)
    ensures LexLess(a, c)
  {
    if a[0] == b[0] == c[0] {
      LexTrans(a[1..], b[1..], c[1..]);
    }
  }

  /** A strict lexicographic step has a first differing position, where the smaller one is lower. */
  lemma {:induction false} LexFirst(a: seq<int>, b: seq<int>) returns (j: int)
    requires |a| == |b| && LexLess(a, b)
    ensures 0 <= j < |a| && a[j] < b[j] && forall i :: 0 <= i < j ==> a[i] == b[i]
  {
    if a[0] < b[0] {
      j := 0;
    } else {
      var j' := LexFirst(a[1..], b[1..]);
      j := j' + 1;
      forall i | 0 <= i < j ensures a[i] == b[i] {
        if i > 0 {
          assert a[i] == a[1..][i - 1] && b[i] == b[1..][i - 1];
        }
      }
    }
  }

  /**
   * x agrees with u up to f, stays below the maxima top, and u is at its
   * maxima from f+1 to f0: unless x comes before u, the two agree up to f0.
   */
  lemma {:induction false} AgreeUpTo(x: seq<int>, u: seq<int>, top: seq<int>, f: int, f0: int)
    requires |x| == |u| == |top| && 0 <= f <= f0 < |u|
    requires forall i :: 0 <= i <= f ==> x[i] == u[i]
    requires forall i :: 0 <= i < |x| ==> x[i] <= top[i]
    requires forall i :: f < i <= f0 ==> u[i] == top[i]
    requires !LexLess(x, u)
    ensures forall i :: 0 <= i <= f0 ==> x[i] == u[i]
    decreases f0 - f
  {
    if f < f0 {
      AgreeUpTo(x, u, top, f, f0 - 1);
      if x[f0] < u[f0] {
        LexAt(x, u, f0);
      }
    }
  }

  /**
   * A carry step from u to v (position f raised by one, the positions after
   * it cleared, the ones from f+1 to f0 saturated in u) skips only vectors
   * that come before u or that agree with u up to f0.
   */
  lemma BumpSkips(x: seq<int>, u: seq<int>, v: seq<int>, top: seq<int>, f: int, f0: int)
    requires |x| == |u| == |v| == |top| && 0 <= f <= f0 < |u|
    requires forall i :: 0 <= i < f ==> v[i] == u[i]
    requires v[f] == u[f] + 1
    requires forall i :: f < i < |v| ==> v[i] == 0
    requires forall i :: 0 <= i < |x| ==> 0 <= x[i] <= top[i]
    requires forall i :: f < i <= f0 ==> u[i] == top[i]
    requires LexLess(x, v)
    ensures !LexLess(x, u) ==> x[f0] == u[f0] && (f0 > 0 ==> x[f0 - 1] == u[f0 - 1])
  {
    var j := LexFirst(x, v);
    if j < f {
      LexAt(x, u, j);
    } else if j == f && x[f] < u[f] {
      LexAt(x, u, f);
    } else if j == f && !LexLess(x, u) {
      AgreeUpTo(x, u, top, f, f0);
    }
  }

  /** The positions of u from g up to n-1: the digits the forward repair advances. */
  function Upper(u: seq<int>, g: int): (d: seq<int>)
    requires 0 <= g < |u|
    ensures |d| == |u| - g && forall k :: 0 <= k < |u| - g ==> d[k] == u[g + k]
  {
    seq(|u| - g, k requires 0 <= k < |u| - g => u[g + k])
  }

  /** The positions of u from g down to 0: the digits the backward repair advances. */
  function Lower(u: seq<int>, g: int): (d: seq<int>)
    requires 0 <= g < |u|
    ensures |d| == g + 1 && forall k :: 0 <= k <= g ==> d[k] == u[g - k]
  {
    seq(g + 1, k requires 0 <= k <= g => u[g - k])
  }

  /** The largest valid position of each window from g on. */
  function TopAbove(cs: Catalogues, g: int): (t: seq<int>)
    requires 0 <= g < |cs|
    ensures |t| == |cs| - g && forall k :: 0 <= k < |cs| - g ==> t[k] == |cs[g + k]| - 1
  {
    seq(|cs| - g, k requires 0 <= k < |cs| - g => |cs[g + k]| - 1)
  }

  /** The largest valid position of each window from g down to 0. */
  function TopBelow(cs: Catalogues, g: int): (t: seq<int>)
    requires 0 <= g < |cs|
    ensures |t| == g + 1 && forall k :: 0 <= k <= g ==> t[k] == |cs[g - k]| - 1
  {
    seq(g + 1, k requires 0 <= k <= g => |cs[g - k]| - 1)
  }

  /** Every vector with a smaller guide position than u is inconsistent. */
  ghost predicate GuideDone(cs: Catalogues, g: int, u: seq<int>)
    requires InBounds(cs, u) && 0 <= g < |cs|
  {
    forall x :: InBounds(cs, x) && x[g] < u[g] ==> !Consistent(cs, x)
  }

  /** With u's guide position, every upper part (g .. n-1) before u's fails above g. */
  ghost predicate UpperDone(cs: Catalogues, g: int, u: seq<int>)
    requires InBounds(cs, u) && 0 <= g < |cs|
  {
    forall x :: InBounds(cs, x) && x[g] == u[g] && LexLess(Upper(x, g), Upper(u, g)) ==> MismatchFwd(cs, g, x) != -1
  }

  /** With u's guide position, every lower part (g .. 0) before u's fails below g. */
  ghost predicate LowerDone(cs: Catalogues, g: int, u: seq<int>)
    requires InBounds(cs, u) && 0 <= g < |cs|
  {
    forall x :: InBounds(cs, x) && x[g] == u[g] && LexLess(Lower(x, g), Lower(u, g)) ==> MismatchRwd(cs, g, x) != -1
  }

  /**
   * No consistent vector has been passed over.  The upper and lower parts
   * are judged apart because the pairs above g and the pairs below g share
   * only position g.
   */
  ghost predicate NoneSkipped(cs: Catalogues, g: int, u: seq<int>)
    requires InBounds(cs, u) && 0 <= g < |cs|
  {
    GuideDone(cs, g, u) && UpperDone(cs, g, u) && LowerDone(cs, g, u)
  }

  /** Nothing is lexicographically below a sequence it dominates position by position. */
  lemma {:induction false} NotBelowFloor(a: seq<int>, b: seq<int>)
    requires |a| == |b| && forall i :: 0 <= i < |a| ==> a[i] >= b[i]
    ensures !LexLess(a, b)
  {
    if a != [] {
      NotBelowFloor(a[1..], b[1..]);
    }
  }

  /** Nothing comes before a vector whose positions other than g are 0. */
  lemma NothingBefore(cs: Catalogues, g: int, u: seq<int>)
    requires InBounds(cs, u) && 0 <= g < |cs| && forall i :: 0 <= i < |u| && i != g ==> u[i] == 0
    ensures UpperDone(cs, g, u) && LowerDone(cs, g, u)
  {
    forall x | InBounds(cs, x) && x[g] == u[g] ensures !LexLess(Upper(x, g), Upper(u, g)) && !LexLess(Lower(x, g), Lower(u, g)) {
      NotBelowFloor(Upper(x, g), Upper(u, g));
      NotBelowFloor(Lower(x, g), Lower(u, g));
    }
  }

  /** The search starts with nothing passed over. */
  lemma ZerosSkipNothing(cs: Catalogues, g: int, u: seq<int>)
    requires InBounds(cs, u) && 0 <= g < |cs| && forall i :: 0 <= i < |u| ==> u[i] == 0
    ensures NoneSkipped(cs, g, u)
  {
    NothingBefore(cs, g, u);
  }

  /** x agrees with u from g to f0, around the failing pair (f0-1, f0): x fails above g too. */
  lemma SharesUpperMismatch(cs: Catalogues, g: int, u: seq<int>, x: seq<int>, f0: int)
    requires InBounds(cs, u) && InBounds(cs, x) && 0 <= g < |cs| && f0 == MismatchFwd(cs, g, u) && f0 != -1
    requires x[f0 - 1] == u[f0 - 1] && x[f0] == u[f0]
    ensures MismatchFwd(cs, g, x) != -1
  {
    assert !PairOverlaps(cs, x, f0 - 1);
  }

  /** x agrees with u from w0 to g, around the failing pair (w0, w0+1): x fails below g too. */
  lemma SharesLowerMismatch(cs: Catalogues, g: int, u: seq<int>, x: seq<int>, w0: int)
    requires InBounds(cs, u) && InBounds(cs, x) && 0 <= g < |cs| && w0 == MismatchRwd(cs, g, u) && w0 != -1
    requires x[w0] == u[w0] && x[w0 + 1] == u[w0 + 1]
    ensures MismatchRwd(cs, g, x) != -1
  {
    assert !PairOverlaps(cs, x, w0);
  }

  /** The forward carry seen on the upper digits: a vector passed over came before u or agrees with u at f0-1 and f0. */
  lemma UpperBump(cs: Catalogues, g: int, u: seq<int>, v: seq<int>, f: int, f0: int, x: seq<int>)
    requires InBounds(cs, u) && InBounds(cs, x) && |v| == |u| && 0 <= g < f <= f0 < |cs|
    requires forall i :: 0 <= i < f ==> v[i] == u[i]
    requires v[f] == u[f] + 1
    requires forall i :: f < i < |v| ==> v[i] == 0
    requires Saturated(cs, u, f + 1, f0)
    requires x[g] == u[g] && LexLess(Upper(x, g), Upper(v, g))
    ensures !LexLess(Upper(x, g), Upper(u, g)) ==> x[f0] == u[f0] && x[f0 - 1] == u[f0 - 1]
  {
    var xs, us, vs, top := Upper(x, g), Upper(u, g), Upper(v, g), TopAbove(cs, g);
    assert forall i :: 0 <= i < f - g ==> vs[i] == us[i];
    assert forall i :: f - g < i < |vs| ==> vs[i] == 0;
    assert forall i :: 0 <= i < |xs| ==> 0 <= xs[i] <= top[i];
    assert forall i :: f - g < i <= f0 - g ==> us[i] == top[i];
    BumpSkips(xs, us, vs, top, f - g, f0 - g);
    assert xs[f0 - g] == x[f0] && us[f0 - g] == u[f0];
    assert xs[f0 - g - 1] == x[f0 - 1] && us[f0 - g - 1] == u[f0 - 1];
  }

  /** A vector passed over by the forward carry that does not come before u fails above g. */
  lemma UpperStep(cs: Catalogues, g: int, u: seq<int>, v: seq<int>, f: int, x: seq<int>)
    requires InBounds(cs, u) && InBounds(cs, x) && |v| == |u| && 0 <= g < f < |cs|
    requires MismatchFwd(cs, g, u) != -1 && f <= MismatchFwd(cs, g, u)
    requires forall i :: 0 <= i < f ==> v[i] == u[i]
    requires v[f] == u[f] + 1
    requires forall i :: f < i < |v| ==> v[i] == 0
    requires Saturated(cs, u, f + 1, MismatchFwd(cs, g, u))
    requires x[g] == u[g] && LexLess(Upper(x, g), Upper(v, g)) && !LexLess(Upper(x, g), Upper(u, g))
    ensures MismatchFwd(cs, g, x) != -1
  {
    var f0 := MismatchFwd(cs, g, u);
    UpperBump(cs, g, u, v, f, f0, x);
    SharesUpperMismatch(cs, g, u, x, f0);
  }

  /** The forward carry keeps the invariant. */
  lemma SkipFwd(cs: Catalogues, g: int, u: seq<int>, v: seq<int>, f: int)
    requires InBounds(cs, u) && InBounds(cs, v) && 0 <= g < f < |cs|
    requires MismatchFwd(cs, g, u) != -1 && f <= MismatchFwd(cs, g, u)
    requires forall i :: 0 <= i < f ==> v[i] == u[i]
    requires v[f] == u[f] + 1
    requires forall i :: f < i < |v| ==> v[i] == 0
    requires Saturated(cs, u, f + 1, MismatchFwd(cs, g, u))
    requires NoneSkipped(cs, g, u)
    ensures NoneSkipped(cs, g, v)
  {
    assert Lower(v, g) == Lower(u, g);
    forall x | InBounds(cs, x) && x[g] == v[g] && LexLess(Upper(x, g), Upper(v, g))
      ensures MismatchFwd(cs, g, x) != -1
    {
      if !LexLess(Upper(x, g), Upper(u, g)) {
        UpperStep(cs, g, u, v, f, x);
      }
    }
  }

  /** The backward carry seen on the lower digits: a vector passed over came before u or agrees with u at w0 and w0+1. */
  lemma LowerBump(cs: Catalogues, g: int, u: seq<int>, v: seq<int>, w: int, w0: int, x: seq<int>)
    requires InBounds(cs, u) && InBounds(cs, x) && |v| == |u| && 0 <= w0 <= w < g < |cs|
    requires forall i :: w < i < |v| ==> v[i] == u[i]
    requires v[w] == u[w] + 1
    requires forall i :: 0 <= i < w ==> v[i] == 0
    requires Saturated(cs, u, w0, w - 1)
    requires x[g] == u[g] && LexLess(Lower(x, g), Lower(v, g))
    ensures !LexLess(Lower(x, g), Lower(u, g)) ==> x[w0] == u[w0] && x[w0 + 1] == u[w0 + 1]
  {
    var xs, us, vs, top := Lower(x, g), Lower(u, g), Lower(v, g), TopBelow(cs, g);
    assert forall i :: 0 <= i < g - w ==> vs[i] == us[i];
    assert forall i :: g - w < i < |vs| ==> vs[i] == 0;
    assert forall i :: 0 <= i < |xs| ==> 0 <= xs[i] <= top[i];
    assert forall i :: g - w < i <= g - w0 ==> us[i] == top[i];
    BumpSkips(xs, us, vs, top, g - w, g - w0);
    assert xs[g - w0] == x[w0] && us[g - w0] == u[w0];
    assert xs[g - w0 - 1] == x[w0 + 1] && us[g - w0 - 1] == u[w0 + 1];
  }

  /** A vector passed over by the backward carry that does not come before u fails below g. */
  lemma LowerStep(cs: Catalogues, g: int, u: seq<int>, v: seq<int>, w: int, x: seq<int>)
    requires InBounds(cs, u) && InBounds(cs, x) && |v| == |u| && 0 <= w < g < |cs|
    requires MismatchRwd(cs, g, u) != -1 && MismatchRwd(cs, g, u) <= w
    requires forall i :: w < i < |v| ==> v[i] == u[i]
    requires v[w] == u[w] + 1
    requires forall i :: 0 <= i < w ==> v[i] == 0
    requires Saturated(cs, u, MismatchRwd(cs, g, u), w - 1)
    requires x[g] == u[g] && LexLess(Lower(x, g), Lower(v, g)) && !LexLess(Lower(x, g), Lower(u, g))
    ensures MismatchRwd(cs, g, x) != -1
  {
    var w0 := MismatchRwd(cs, g, u);
    LowerBump(cs, g, u, v, w, w0, x);
    SharesLowerMismatch(cs, g, u, x, w0);
  }

  /** The backward carry keeps the invariant. */
  lemma SkipRwd(cs: Catalogues, g: int, u: seq<int>, v: seq<int>, w: int)
    requires InBounds(cs, u) && InBounds(cs, v) && 0 <= w < g < |cs|
    requires MismatchRwd(cs, g, u) != -1 && MismatchRwd(cs, g, u) <= w
    requires forall i :: w < i < |v| ==> v[i] == u[i]
    requires v[w] == u[w] + 1
    requires forall i :: 0 <= i < w ==> v[i] == 0
    requires Saturated(cs, u, MismatchRwd(cs, g, u), w - 1)
    requires NoneSkipped(cs, g, u)
    ensures NoneSkipped(cs, g, v)
  {
    assert Upper(v, g) == Upper(u, g);
    forall x | InBounds(cs, x) && x[g] == v[g] && LexLess(Lower(x, g), Lower(v, g))
      ensures MismatchRwd(cs, g, x) != -1
    {
      if !LexLess(Lower(x, g), Lower(u, g)) {
        LowerStep(cs, g, u, v, w, x);
      }
    }
  }

  /**
   * When a carry reaches g, no consistent vector keeps the guide at u[g] or
   * below: the current guide entry is used up.
   */
  lemma Exhausted(cs: Catalogues, g: int, u: seq<int>)
    requires InBounds(cs, u) && 0 <= g < |cs| && NoneSkipped(cs, g, u)
    requires ReachesFwd(cs, g, u) || ReachesRwd(cs, g, u)
    ensures forall x :: InBounds(cs, x) && x[g] <= u[g] ==> !Consistent(cs, x)
  {
    forall x | InBounds(cs, x) && x[g] == u[g] ensures !Consistent(cs, x) {
      if ReachesFwd(cs, g, u) {
        if !LexLess(Upper(x, g), Upper(u, g)) {
          ExhaustedAbove(cs, g, u, x);
        }
      } else if !LexLess(Lower(x, g), Lower(u, g)) {
        ExhaustedBelow(cs, g, u, x);
      }
    }
  }

  /** With the forward carry saturated down to g, an upper part not before u's repeats u's mismatch. */
  lemma ExhaustedAbove(cs: Catalogues, g: int, u: seq<int>, x: seq<int>)
    requires InBounds(cs, u) && InBounds(cs, x) && 0 <= g < |cs| && ReachesFwd(cs, g, u)
    requires x[g] == u[g] && !LexLess(Upper(x, g), Upper(u, g))
    ensures MismatchFwd(cs, g, x) != -1
  {
    var f0 := MismatchFwd(cs, g, u);
    var xs, us := Upper(x, g), Upper(u, g);
    assert forall i :: 0 <= i < |xs| ==> xs[i] <= TopAbove(cs, g)[i];
    assert forall i :: 0 < i <= f0 - g ==> us[i] == TopAbove(cs, g)[i];
    AgreeUpTo(xs, us, TopAbove(cs, g), 0, f0 - g);
    assert xs[f0 - g] == x[f0] && us[f0 - g] == u[f0];
    assert xs[f0 - g - 1] == x[f0 - 1] && us[f0 - g - 1] == u[f0 - 1];
    SharesUpperMismatch(cs, g, u, x, f0);
  }

  /** With the backward carry saturated up to g, a lower part not before u's repeats u's mismatch. */
  lemma ExhaustedBelow(cs: Catalogues, g: int, u: seq<int>, x: seq<int>)
    requires InBounds(cs, u) && InBounds(cs, x) && 0 <= g < |cs| && ReachesRwd(cs, g, u)
    requires x[g] == u[g] && !LexLess(Lower(x, g), Lower(u, g))
    ensures MismatchRwd(cs, g, x) != -1
  {
    var w0 := MismatchRwd(cs, g, u);
    var xs, us := Lower(x, g), Lower(u, g);
    assert forall i :: 0 <= i < |xs| ==> xs[i] <= TopBelow(cs, g)[i];
    assert forall i :: 0 < i <= g - w0 ==> us[i] == TopBelow(cs, g)[i];
    AgreeUpTo(xs, us, TopBelow(cs, g), 0, g - w0);
    assert xs[g - w0] == x[w0] && us[g - w0] == u[w0];
    assert xs[g - w0 - 1] == x[w0 + 1] && us[g - w0 - 1] == u[w0 + 1];
    SharesLowerMismatch(cs, g, u, x, w0);
  }

  /** A restart from an exhausted guide entry keeps the invariant. */
  lemma SkipRestart(cs: Catalogues, g: int, u: seq<int>, v: seq<int>)
    requires InBounds(cs, u) && InBounds(cs, v) && 0 <= g < |cs| && NoneSkipped(cs, g, u)
    requires ReachesFwd(cs, g, u) || ReachesRwd(cs, g, u)
    requires IsRestart(u, v, g)
    ensures NoneSkipped(cs, g, v)
  {
    Exhausted(cs, g, u);
    NothingBefore(cs, g, v);
  }

  /**
   * u is the first consistent vector the search can reach: no consistent
   * vector has a smaller guide position, and with the same guide position
   * none has an upper part or a lower part before u's.
   */
  ghost predicate Earliest(cs: Catalogues, g: int, u: seq<int>)
    requires InBounds(cs, u) && 0 <= g < |cs|
  {
    forall x :: InBounds(cs, x) && Consistent(cs, x) ==>
      && u[g] <= x[g]
      && (x[g] == u[g] ==> !LexLess(Upper(x, g), Upper(u, g)) && !LexLess(Lower(x, g), Lower(u, g)))
  }

  lemma FirstFound(cs: Catalogues, g: int, u: seq<int>)
    requires InBounds(cs, u) && 0 <= g < |cs| && NoneSkipped(cs, g, u)
    ensures Earliest(cs, g, u)
  {
    forall x | InBounds(cs, x) && Consistent(cs, x)
      ensures u[g] <= x[g]
      ensures x[g] == u[g] ==> !LexLess(Upper(x, g), Upper(u, g)) && !LexLess(Lower(x, g), Lower(u, g))
    {
      NoMismatchIffConsistent(cs, g, x);
    }
  }

  /** The catalogue sizes, one per window. */
  function Sizes(cs: Catalogues): (s: seq<int>)
    ensures |s| == |cs| && forall i :: 0 <= i < |cs| ==> s[i] == |cs[i]|
  {
    seq(|cs|, i requires 0 <= i < |cs| => |cs[i]|)
  }

  function Prod(r: seq<int>): int
  {
    if r == [] then 1 else r[0] * Prod(r[1..])
  }

  /** The value of digits d in mixed radix r, most significant first. */
  function Value(d: seq<int>, r: seq<int>): int
    requires |d| == |r|
  {
    if d == [] then 0 else d[0] * Prod(r[1..]) + Value(d[1..], r[1..])
  }

  predicate Below(d: seq<int>, r: seq<int>)
  {
    |d| == |r| && forall i :: 0 <= i < |d| ==> 0 <= d[i] < r[i]
  }

  /** Digits below their radices have a value in [0, Prod(r)). */
  lemma {:induction false} ValueRange(d: seq<int>, r: seq<int>)
    requires Below(d, r)
    ensures 0 <= Value(d, r) < Prod(r)
  {
    if d != [] {
      ValueRange(d[1..], r[1..]);
      var p := Prod(r[1..]);
      MulBelow(d[0], r[0], p);
    }
  }

  lemma MulBelow(x: int, y: int, p: int)
    requires 0 <= x < y && 0 < p
    ensures 0 <= x * p && x * p + p <= y * p
  {
    assert (x + 1) * p <= y * p;
  }

  /** The mixed-radix value is monotone in the lexicographic order. */
  lemma {:induction false} ValueLex(d: seq<int>, e: seq<int>, r: seq<int>)
    requires Below(d, r) && Below(e, r) && LexLess(d, e)
    ensures Value(d, r) < Value(e, r)
  {
    ValueRange(d[1..], r[1..]);
    ValueRange(e[1..], r[1..]);
    var p := Prod(r[1..]);
    if d[0] < e[0] {
      MulBelow(d[0], e[0], p);
    } else {
      ValueLex(d[1..], e[1..], r[1..]);
    }
  }

  /** What is left of the search: the number of vectors from u onward in search order. */
  function Remaining(cs: Catalogues, g: int, u: seq<int>): int
    requires 0 <= g < |cs| && |u| == |cs|
  {
    var r := Digits(Sizes(cs), g);
    Prod(r) - Value(Digits(u, g), r)
  }

  /** In search order, every digit of an in-bounds vector is below its window's size. */
  lemma DigitsBelow(cs: Catalogues, g: int, u: seq<int>)
    requires 0 <= g < |cs| && InBounds(cs, u)
    ensures Below(Digits(u, g), Digits(Sizes(cs), g))
  {
    var d, r, n := Digits(u, g), Digits(Sizes(cs), g), |cs|;
    forall k | 0 <= k < n
      ensures 0 <= d[k] < r[k]
    {
      if k < n - g {
        assert d[k] == u[g + k] && r[k] == |cs[g + k]|;
      } else {
        assert d[k] == u[n - 1 - k] && r[k] == |cs[n - 1 - k]|;
      }
    }
  }

  /** Moving forward in search order lowers the bounded measure. */
  lemma Progress(cs: Catalogues, g: int, u: seq<int>, v: seq<int>)
    requires 0 <= g < |cs| && InBounds(cs, u) && InBounds(cs, v)
    requires LexLess(Digits(u, g), Digits(v, g))
    ensures 0 < Remaining(cs, g, v) < Remaining(cs, g, u)
  {
    var r := Digits(Sizes(cs), g);
    DigitsBelow(cs, g, u);
    DigitsBelow(cs, g, v);
    ValueRange(Digits(v, g), r);
    ValueLex(Digits(u, g), Digits(v, g), r);
  }

  // ------------------------------------------------------------ the search

  /**
   * Lines 417-433 of globalVariantReconstructor: from the all-zero vector,
   * updateMatchingSet is applied until the vector is consistent or the
   * update fails.  Each update moves forward in search order, so the loop
   * ends after at most as many rounds as there are index vectors.
   */
  method SearchConsistent(cs: Catalogues, g: int) returns (r: Option<seq<int>>)
    requires 0 <= g < |cs| && forall i :: 0 <= i < |cs| ==> |cs[i]| > 0
    ensures r.Some? ==> InBounds(cs, r.value) && Consistent(cs, r.value) && Earliest(cs, g, r.value)
    ensures r.None? ==> forall x :: InBounds(cs, x) ==> !Consistent(cs, x)
    ensures Consistent(cs, seq(|cs|, i => 0)) ==> r == Some(seq(|cs|, i => 0))
  {
    var indices := seq(|cs|, i => 0);
    ZerosSkipNothing(cs, g, indices);
    while !ConsistentOverlaps(cs, Some(indices))
      invariant InBounds(cs, indices) && NoneSkipped(cs, g, indices)
      invariant Consistent(cs, seq(|cs|, i => 0)) ==> indices == seq(|cs|, i => 0)
      decreases Remaining(cs, g, indices)
    {
      var next := UpdateMatchingSet(cs, g, indices);
      if next.None? {
        return None;
      }
      Progress(cs, g, indices, next.value);
      indices := next.value;
    }
    FirstFound(cs, g, indices);
    return Some(indices);
  }
}
