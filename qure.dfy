/**
 * The parts of QuRe.main this model covers: the output prefix, the
 * command-line defaults, the worker count and the loop that drops one end
 * window of the chosen layout until the reconstruction yields variants.
 */
module QuRe {
  import opened Common
  import JString
  import opened Amplicons
  import opened AmpliconSearch

  // ---------------------------------------------------------------------
  // Arguments
  // ---------------------------------------------------------------------

  /** args[0] up to, not including, its last '.', or all of it when it has none. */
  function OutputPrefix(arg0: string): (prefix: string)
    ensures '.' !in arg0 ==> prefix == arg0
    ensures '.' in arg0 ==> prefix < arg0 && arg0[|prefix|] == '.' && '.' !in arg0[|prefix| + 1..]
  {
    var dot := JString.LastIndexOf(arg0, '.');
    if dot != -1 then arg0[..dot] else arg0
  }

  /** The error rates and the iteration count of a run. */
  datatype Settings = Settings(homopolErr: real, nonHomopolErr: real, iterations: int)

  const Defaults: Settings := Settings(0.01, 0.005, 3000)

  /**
   * The settings read from args: the defaults for up to two arguments,
   * otherwise arguments 2, 3 and 4 parsed, which fails (None) for three or
   * four arguments, since args[4] is then out of range, and for an argument
   * that does not parse.  parseReal and parseInt stand for Double.parseDouble
   * and Integer.parseInt.
   */
  function Arguments(args: seq<string>, parseReal: string -> Option<real>, parseInt: string -> Option<int>)
    : (r: Option<Settings>)
    ensures |args| <= 2 ==> r == Some(Defaults)
    ensures 3 <= |args| <= 4 ==> r.None?
    ensures |args| >= 5 ==> (r.Some? <==> parseReal(args[2]).Some? && parseReal(args[3]).Some? && parseInt(args[4]).Some?)
    ensures |args| >= 5 && r.Some? ==>
      r.value == Settings(parseReal(args[2]).value, parseReal(args[3]).value, parseInt(args[4]).value)
  {
    if |args| <= 2 then Some(Defaults)
    else if |args| < 5 then None
    else
      match (parseReal(args[2]), parseReal(args[3]), parseInt(args[4]))
      case (Some(h), Some(nh), Some(it)) => Some(Settings(h, nh, it))
      case _ => None
  }

  /** One worker per available core but one, and at least one. */
  function Workers(cores: int): (n: int)
    ensures n >= 1 && n >= cores - 1
    ensures n == cores - 1 || n == 1
  {
    if cores - 1 >= 1 then cores - 1 else 1
  }

  // ---------------------------------------------------------------------
  // The window-shrink retry
  // ---------------------------------------------------------------------

  /** Drop the last window when the draw is below 0.5, otherwise the first. */
  function DropEnd(l: Layout, draw: real): (r: Layout)
    requires 1 <= |l.starts| == |l.stops|
    ensures |r.starts| == |r.stops| == |l.starts| - 1
  {
    var n := |l.starts|;
    if draw < 0.5 then Layout(l.starts[..n - 1], l.stops[..n - 1]) else Layout(l.starts[1..], l.stops[1..])
  }

  /**
   * The retry loop as written: while the reconstruction of the current
   * layout yields nothing and the layout has more than one window, drop an
   * end window and rebuild the ensemble.  The result lists the layouts the
   * ensemble is rebuilt from; ok(l) says the reconstruction of l yields
   * variants, coin(i) is the draw of pass i.
   */
  function WrittenAttempts(l: Layout, ok: Layout -> bool, coin: nat -> real, i: nat): (ls: seq<Layout>)
    requires 1 <= |l.starts| == |l.stops|
    ensures forall k :: 0 <= k < |ls| ==> 1 <= |ls[k].starts| == |ls[k].stops| < |l.starts|
    decreases |l.starts|
  {
    if ok(l) || |l.starts| <= 1 then []
    else
      var next := DropEnd(l, coin(i));
      [next] + WrittenAttempts(next, ok, coin, i + 1)
  }

  /**
   * When no layout reconstructs, the written loop keeps shrinking down to a
   * single window and rebuilds the ensemble from it, which reads starts[1]
   * of a one-window layout: the ensemble constructor needs two windows.
   */
  lemma {:induction false} WrittenRetryReachesOneWindow(l: Layout, ok: Layout -> bool, coin: nat -> real, i: nat)
    requires 2 <= |l.starts| == |l.stops|
    requires forall x :: !ok(x)
    ensures var ls := WrittenAttempts(l, ok, coin, i);
            |ls| == |l.starts| - 1 && |ls[|ls| - 1].starts| == 1
    decreases |l.starts|
  {
    var next := DropEnd(l, coin(i));
    assert !ok(l);
    if |l.starts| > 2 {
      WrittenRetryReachesOneWindow(next, ok, coin, i + 1);
    } else {
      assert !ok(next);
      assert WrittenAttempts(next, ok, coin, i + 1) == [];
    }
  }

  /** Dropping the first or the last window keeps a layout consistent. */
  lemma DropEndConsistent(l: Layout, draw: real)
    requires 2 <= |l.starts| == |l.stops| && CheckConsistency(l.starts, l.stops)
    ensures CheckConsistency(DropEnd(l, draw).starts, DropEnd(l, draw).stops)
  {
    var r := DropEnd(l, draw);
    var n := |l.starts|;
    if |r.starts| > 1 {
      if draw < 0.5 {
        forall i | 0 <= i < |r.starts| - 1
          ensures PairConsistent(r.starts[i], r.stops[i], r.starts[i + 1], r.stops[i + 1])
        {
          assert PairConsistent(l.starts[i], l.stops[i], l.starts[i + 1], l.stops[i + 1]);
        }
      } else {
        forall i | 0 <= i < |r.starts| - 1
          ensures PairConsistent(r.starts[i], r.stops[i], r.starts[i + 1], r.stops[i + 1])
        {
          assert PairConsistent(l.starts[i + 1], l.stops[i + 1], l.starts[i + 2], l.stops[i + 2]);
        }
      }
    }
  }

  /**
   * Dropping the last window of the block lo..hi of a layout, which leaves
   * the block lo..hi - 1, or its first, which leaves lo + 1..hi, keeps the
   * block consistent.
   */
  lemma DropBlock(s0: seq<real>, t0: seq<real>, lo: nat, hi: nat, draw: real)
    requires lo + 2 <= hi <= |s0| == |t0|
    ensures CheckConsistency(s0[lo..hi], t0[lo..hi]) ==>
      if draw < 0.5 then CheckConsistency(s0[lo..hi - 1], t0[lo..hi - 1])
      else CheckConsistency(s0[lo + 1..hi], t0[lo + 1..hi])
  {
    var l := Layout(s0[lo..hi], t0[lo..hi]);
    if CheckConsistency(l.starts, l.stops) {
      DropEndConsistent(l, draw);
    }
    if draw < 0.5 {
      assert DropEnd(l, draw) == Layout(s0[lo..hi - 1], t0[lo..hi - 1]);
    } else {
      assert DropEnd(l, draw) == Layout(s0[lo + 1..hi], t0[lo + 1..hi]);
    }
  }

  /**
   * The retry loop with the guard it needs, more than two windows, so every
   * ensemble is built from at least two.  Each pass drops one end window of
   * the chosen set's starts and stops, kept here as the bounds i..j of the
   * block still in use and stored in the set when the loop ends;
   * reconstructs(s, t) says the
   * reconstruction over that layout yields variants, coin(i) is the draw of
   * pass i.  The layout ends as a block of consecutive windows of the old
   * one; it reconstructs, or it is down to two windows.
   */
  method Retry(a: AmpliconSet, reconstructs: (seq<real>, seq<real>) -> bool, coin: nat -> real)
    returns (found: bool, ghost lo: nat)
    requires 2 <= |a.starts| == |a.stops|
    modifies a`starts, a`stops
    ensures 2 <= |a.starts| == |a.stops| <= |old(a.starts)|
    ensures lo + |a.starts| <= |old(a.starts)|
    ensures a.starts == old(a.starts)[lo..lo + |a.starts|] && a.stops == old(a.stops)[lo..lo + |a.stops|]
    ensures found == reconstructs(a.starts, a.stops)
    ensures !found ==> |a.starts| == 2
    ensures CheckConsistency(old(a.starts), old(a.stops)) ==> CheckConsistency(a.starts, a.stops)
  {
    var s0, t0 := a.starts, a.stops;
    var i, j := 0, |s0|;
    found := reconstructs(s0[i..j], t0[i..j]);
    var pass := 0;
    while !found && j - i > 2
      invariant 0 <= i <= j <= |s0| == |t0| && j - i >= 2
      invariant found == reconstructs(s0[i..j], t0[i..j])
      invariant CheckConsistency(s0, t0) ==> CheckConsistency(s0[i..j], t0[i..j])
      decreases j - i
    {
      DropBlock(s0, t0, i, j, coin(pass));
      if coin(pass) < 0.5 {
        j := j - 1;
      } else {
        i := i + 1;
      }
      found := reconstructs(s0[i..j], t0[i..j]);
      pass := pass + 1;
    }
    a.starts, a.stops := s0[i..j], t0[i..j];
    lo := i;
  }
}
