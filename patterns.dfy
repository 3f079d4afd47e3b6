/**
 * SNP pattern strings.  A pattern is the list of events whose texts are
 * concatenated (getSNPString, SNP_string, the catalogue keys); comparing two
 * patterns splits their strings on ',' into tokens.
 */
module Patterns {
  import opened Common
  import opened Snp
  import JString

  type Pattern = seq<Event>

  /** A piece of a split pattern string: the empty piece, or one event's token. */
  datatype Token = Blank | Tok(event: Event)

  /** The pieces pattern.split(","): an empty string yields one empty piece. */
  function Tokens(p: Pattern): (ts: seq<Token>)
    ensures |ts| >= 1
  {
    if p == [] then [Blank] else seq(|p|, i requires 0 <= i < |p| => Tok(p[i]))
  }

  /** The string a pattern stands for: the texts of its events, in order. */
  function Render(p: Pattern, posText: real -> string): string
  {
    if p == [] then "" else Text(p[0], posText) + Render(p[1..], posText)
  }

  /** A token's text as split returns it (without its comma). */
  function TokenText(t: Token, posText: real -> string): string
  {
    match t
    case Blank => ""
    case Tok(e) => var s := Text(e, posText); s[..|s| - 1]
  }

  function TokenTexts(ts: seq<Token>, posText: real -> string): (r: seq<string>)
    ensures |r| == |ts|
    ensures forall i :: 0 <= i < |ts| ==> r[i] == TokenText(ts[i], posText)
  {
    seq(|ts|, i requires 0 <= i < |ts| => TokenText(ts[i], posText))
  }

  predicate PlainEvents(p: Pattern, posText: real -> string)
  {
    forall i :: 0 <= i < |p| ==> PlainText(posText(p[i].pos)) && p[i].ref != ',' && p[i].base != ','
  }

  lemma {:induction false} RenderIsTerminated(p: Pattern, posText: real -> string)
    ensures Render(p, posText) == JString.Terminated(TokenTexts(Tokens(p)[..|p|], posText), ',')
  {
    if p != [] {
      var ts := TokenTexts(Tokens(p)[..|p|], posText);
      RenderIsTerminated(p[1..], posText);
      var ts1 := TokenTexts(Tokens(p[1..])[..|p| - 1], posText);
      assert |ts1| == |p| - 1;
      forall i | 0 <= i < |ts1| ensures ts[1..][i] == ts1[i] {
        assert Tokens(p)[..|p|][i + 1] == Tok(p[i + 1]) == Tokens(p[1..])[..|p| - 1][i];
      }
      assert ts[1..] == ts1;
      var s := Text(p[0], posText);
      assert ts[0] == s[..|s| - 1];
      assert s == s[..|s| - 1] + [','];
      assert JString.Terminated(ts, ',') == ts[0] + [','] + JString.Terminated(ts[1..], ',');
    }
  }

  lemma PlainTokenText(e: Event, posText: real -> string)
    requires PlainText(posText(e.pos)) && e.ref != ',' && e.base != ','
    ensures ',' !in TokenText(Tok(e), posText)
  {
    var s := Text(e, posText);
    assert s[..|s| - 1] == [e.ref] + "_" + posText(e.pos) + "_" + [e.base];
  }

  /**
   * Java split on the rendered string gives exactly the texts of Tokens(p):
   * one empty piece for the empty pattern, one piece per event otherwise.
   */
  lemma {:induction false} RenderSplit(p: Pattern, posText: real -> string)
    requires PlainEvents(p, posText)
    ensures JString.Split(Render(p, posText), ',') == TokenTexts(Tokens(p), posText)
  {
    RenderIsTerminated(p, posText);
    if p == [] {
      assert Render(p, posText) == "";
    } else {
      var ts := TokenTexts(Tokens(p)[..|p|], posText);
      assert Tokens(p)[..|p|] == Tokens(p);
      forall i | 0 <= i < |ts| ensures ',' !in ts[i] {
        assert Tokens(p)[..|p|][i] == Tok(p[i]);
        PlainTokenText(p[i], posText);
      }
      JString.SplitTerminated(ts, ',');
    }
  }

  // ---------------------------------------------------------------- restriction

  /** The events with lo <= pos <= hi, in list order (Read.getSNPString). */
  function Restrict(p: Pattern, lo: real, hi: real): (r: Pattern)
    ensures |r| <= |p|
  {
    if p == [] then []
    else (if lo <= p[0].pos <= hi then [p[0]] else []) + Restrict(p[1..], lo, hi)
  }

  lemma RestrictCons(x: Event, t: Pattern, lo: real, hi: real)
    ensures Restrict([x] + t, lo, hi) == (if lo <= x.pos <= hi then [x] else []) + Restrict(t, lo, hi)
  {
    assert ([x] + t)[1..] == t;
  }

  /** Exactly the events of p inside [lo, hi] survive. */
  lemma {:induction false} RestrictMembers(p: Pattern, lo: real, hi: real)
    ensures forall e :: e in Restrict(p, lo, hi) <==> e in p && lo <= e.pos <= hi
  {
    if p != [] {
      RestrictMembers(p[1..], lo, hi);
      assert p == [p[0]] + p[1..];
    }
  }

  /** a is obtained from b by deleting elements. */
  predicate IsSubsequence(a: Pattern, b: Pattern)
    decreases |b|
  {
    a == [] || (b != [] && ((a[0] == b[0] && IsSubsequence(a[1..], b[1..])) || IsSubsequence(a, b[1..])))
  }

  lemma {:induction false} RestrictIsSubsequence(p: Pattern, lo: real, hi: real)
    ensures IsSubsequence(Restrict(p, lo, hi), p)
  {
    if p != [] {
      RestrictIsSubsequence(p[1..], lo, hi);
      var r := Restrict(p[1..], lo, hi);
      if lo <= p[0].pos <= hi {
        assert ([p[0]] + r)[1..] == r;
      } else {
        assert Restrict(p, lo, hi) == r;
      }
    }
  }

  /** A narrower range restricted from a restriction is the direct restriction. */
  lemma {:induction false} RestrictNested(p: Pattern, lo: real, hi: real, lo': real, hi': real)
    requires lo <= lo' && hi' <= hi
    ensures Restrict(Restrict(p, lo, hi), lo', hi') == Restrict(p, lo', hi')
  {
    if p != [] {
      RestrictNested(p[1..], lo, hi, lo', hi');
      var r := Restrict(p[1..], lo, hi);
      if lo <= p[0].pos <= hi {
        RestrictCons(p[0], r, lo', hi');
      } else {
        assert Restrict(p, lo, hi) == r;
        assert Restrict(p, lo', hi') == Restrict(p[1..], lo', hi');
      }
    }
  }

  predicate SortedByPos(p: Pattern)
  {
    forall i, j :: 0 <= i < j < |p| ==> p[i].pos <= p[j].pos
  }

  lemma {:induction false} RestrictEmptyBelow(p: Pattern, lo: real, hi: real)
    requires forall i :: 0 <= i < |p| ==> p[i].pos > hi
    ensures Restrict(p, lo, hi) == []
  {
    if p != [] {
      RestrictEmptyBelow(p[1..], lo, hi);
    }
  }

  lemma {:induction false} RestrictRaiseLow(p: Pattern, lo: real, lo': real, hi: real)
    requires lo <= lo'
    requires forall i :: 0 <= i < |p| ==> p[i].pos >= lo'
    ensures Restrict(p, lo, hi) == Restrict(p, lo', hi)
  {
    if p != [] {
      RestrictRaiseLow(p[1..], lo, lo', hi);
    }
  }

  /**
   * On a position-sorted list with no event strictly between b and b', the
   * restriction to [a, c] is the restriction to [a, b] followed by the one to [b', c].
   */
  lemma {:induction false} RestrictSplit(p: Pattern, a: real, b: real, b': real, c: real)
    requires SortedByPos(p)
    requires a <= b < b' <= c
    requires NoneBetween(p, b, b')
    ensures Restrict(p, a, c) == Restrict(p, a, b) + Restrict(p, b', c)
  {
    if p != [] {
      var x, t := p[0], p[1..];
      assert SortedByPos(t) && NoneBetween(t, b, b') by {
        forall i | 0 <= i < |t| ensures !(b < t[i].pos < b') { assert p[i + 1] == t[i]; }
      }
      RestrictSplit(t, a, b, b', c);
      if b' <= x.pos <= c {
        assert forall i :: 0 <= i < |t| ==> t[i].pos >= b' by {
          forall i | 0 <= i < |t| ensures t[i].pos >= b' { assert p[i + 1] == t[i]; }
        }
        RestrictEmptyBelow(t, a, b);
        RestrictRaiseLow(t, a, b', c);
        assert Restrict(p, a, c) == [x] + Restrict(t, b', c);
      }
      RestrictSplitStep(x, t, a, b, b', c);
    }
  }

  lemma RestrictSplitStep(x: Event, t: Pattern, a: real, b: real, b': real, c: real)
    requires a <= b < b' <= c
    requires !(b < x.pos < b')
    requires Restrict(t, a, c) == Restrict(t, a, b) + Restrict(t, b', c)
    requires b' <= x.pos <= c ==> Restrict(t, a, b) == []
    ensures Restrict([x] + t, a, c) == Restrict([x] + t, a, b) + Restrict([x] + t, b', c)
  {
    RestrictCons(x, t, a, c);
    RestrictCons(x, t, a, b);
    RestrictCons(x, t, b', c);
  }

  lemma {:induction false} RestrictSorted(p: Pattern, lo: real, hi: real)
    requires SortedByPos(p)
    ensures SortedByPos(Restrict(p, lo, hi))
  {
    if p != [] {
      assert SortedByPos(p[1..]);
      RestrictSorted(p[1..], lo, hi);
      var r := Restrict(p[1..], lo, hi);
      RestrictMembers(p[1..], lo, hi);
      forall j | 0 <= j < |r| ensures p[0].pos <= r[j].pos {
        assert r[j] in r;
        var k :| 0 <= k < |p[1..]| && p[1..][k] == r[j];
        assert p[k + 1] == r[j];
      }
    }
  }

  /** No event of q lies strictly between b and b'. */
  predicate NoneBetween(q: Pattern, b: real, b': real)
  {
    forall i :: 0 <= i < |q| ==> !(b < q[i].pos < b')
  }

  lemma {:induction false} NoneBetweenRestrict(q: Pattern, lo: real, hi: real, b: real, b': real)
    requires NoneBetween(q, b, b')
    ensures NoneBetween(Restrict(q, lo, hi), b, b')
  {
    var r := Restrict(q, lo, hi);
    RestrictMembers(q, lo, hi);
    forall i | 0 <= i < |r| ensures !(b < r[i].pos < b') {
      assert r[i] in r;
      var k :| 0 <= k < |q| && q[k] == r[i];
    }
  }

  lemma {:induction false} SubKeysConcat(p: Pattern, start: real, m1: real, m2: real, stop: real)
    requires SortedByPos(p)
    requires start <= m1 && m1 + 1.0 <= m2 - 1.0 && m2 <= stop
    requires NoneBetween(Restrict(p, start, stop), m1, m1 + 1.0)
    requires NoneBetween(Restrict(p, start, stop), m2 - 1.0, m2)
    ensures Restrict(p, start, m1) + Restrict(p, m1 + 1.0, m2 - 1.0) + Restrict(p, m2, stop) == Restrict(p, start, stop)
  {
    SubKeysLeft(p, start, m1, stop);
    SubKeysRight(p, start, m1, m2, stop);
  }

  lemma SubKeysLeft(p: Pattern, start: real, m1: real, stop: real)
    requires SortedByPos(p)
    requires start <= m1 && m1 + 1.0 <= stop
    requires NoneBetween(Restrict(p, start, stop), m1, m1 + 1.0)
    ensures Restrict(p, start, stop) == Restrict(p, start, m1) + Restrict(Restrict(p, start, stop), m1 + 1.0, stop)
  {
    var q := Restrict(p, start, stop);
    RestrictSorted(p, start, stop);
    RestrictSplit(q, start, m1, m1 + 1.0, stop);
    RestrictNested(p, start, stop, start, stop);
    RestrictNested(p, start, stop, start, m1);
  }

  lemma SubKeysRight(p: Pattern, start: real, m1: real, m2: real, stop: real)
    requires SortedByPos(p)
    requires start <= m1 && m1 + 1.0 <= m2 - 1.0 && m2 <= stop
    requires NoneBetween(Restrict(p, start, stop), m2 - 1.0, m2)
    ensures Restrict(Restrict(p, start, stop), m1 + 1.0, stop) == Restrict(p, m1 + 1.0, m2 - 1.0) + Restrict(p, m2, stop)
  {
    var q := Restrict(p, start, stop);
    var q2 := Restrict(q, m1 + 1.0, stop);
    RestrictSorted(p, start, stop);
    RestrictSorted(q, m1 + 1.0, stop);
    NoneBetweenRestrict(q, m1 + 1.0, stop, m2 - 1.0, m2);
    RestrictSplit(q2, m1 + 1.0, m2 - 1.0, m2, stop);
    RestrictNested(q, m1 + 1.0, stop, m1 + 1.0, stop);
    RestrictNested(q, m1 + 1.0, stop, m1 + 1.0, m2 - 1.0);
    RestrictNested(q, m1 + 1.0, stop, m2, stop);
    RestrictNested(p, start, stop, m1 + 1.0, m2 - 1.0);
    RestrictNested(p, start, stop, m2, stop);
  }

  /**
   * The three sub-keys of a catalogue entry, [start, m1], [m1+1, m2-1] and
   * [m2, stop], concatenate to the full key exactly when no event of the key
   * lies strictly inside (m1, m1+1) or (m2-1, m2).
   */
  lemma {:induction false} SubKeysCoverKey(p: Pattern, start: real, m1: real, m2: real, stop: real)
    requires SortedByPos(p)
    requires start <= m1 && m1 + 1.0 <= m2 - 1.0 && m2 <= stop
    ensures Restrict(p, start, m1) + Restrict(p, m1 + 1.0, m2 - 1.0) + Restrict(p, m2, stop) == Restrict(p, start, stop)
        <==> NoneBetween(Restrict(p, start, stop), m1, m1 + 1.0) && NoneBetween(Restrict(p, start, stop), m2 - 1.0, m2)
  {
    var q := Restrict(p, start, stop);
    if NoneBetween(q, m1, m1 + 1.0) && NoneBetween(q, m2 - 1.0, m2) {
      SubKeysConcat(p, start, m1, m2, stop);
    } else {
      var i :| 0 <= i < |q| && ((m1 < q[i].pos < m1 + 1.0) || (m2 - 1.0 < q[i].pos < m2));
      var e := q[i];
      RestrictMembers(p, start, m1);
      RestrictMembers(p, m1 + 1.0, m2 - 1.0);
      RestrictMembers(p, m2, stop);
      assert e !in Restrict(p, start, m1) + Restrict(p, m1 + 1.0, m2 - 1.0) + Restrict(p, m2, stop);
      assert e in q;
    }
  }

  // ---------------------------------------------------------------- distance

  /** How many tokens of xs do not occur in ys (duplicates counted each time). */
  function CountAbsent(xs: seq<Token>, ys: seq<Token>): nat
  {
    if xs == [] then 0 else (if xs[0] in ys then 0 else 1) + CountAbsent(xs[1..], ys)
  }

  /** The tokens of xs that do not occur in ys, in order. */
  function Absent(xs: seq<Token>, ys: seq<Token>): seq<Token>
  {
    if xs == [] then [] else (if xs[0] in ys then [] else [xs[0]]) + Absent(xs[1..], ys)
  }

  /** LocalVariant.distance and Read.distance: tokens of a missing from b plus tokens of b missing from a. */
  function Distance(a: Pattern, b: Pattern): nat
  {
    CountAbsent(Tokens(a), Tokens(b)) + CountAbsent(Tokens(b), Tokens(a))
  }

  /** LocalVariant.snpDifferences: the differing tokens, a's first (each is written followed by ','). */
  function Differences(a: Pattern, b: Pattern): seq<Token>
  {
    Absent(Tokens(a), Tokens(b)) + Absent(Tokens(b), Tokens(a))
  }

  lemma {:induction false} AbsentCount(xs: seq<Token>, ys: seq<Token>)
    ensures |Absent(xs, ys)| == CountAbsent(xs, ys)
    ensures forall t :: t in Absent(xs, ys) <==> t in xs && t !in ys
  {
    if xs != [] {
      AbsentCount(xs[1..], ys);
      assert xs == [xs[0]] + xs[1..];
    }
  }

  lemma {:induction false} CountAbsentZero(xs: seq<Token>, ys: seq<Token>)
    ensures CountAbsent(xs, ys) == 0 <==> forall t :: t in xs ==> t in ys
  {
    if xs != [] {
      CountAbsentZero(xs[1..], ys);
      assert xs == [xs[0]] + xs[1..];
    }
  }

  /** The distance is symmetric. */
  lemma DistanceSymmetric(a: Pattern, b: Pattern)
    ensures Distance(a, b) == Distance(b, a)
  {
  }

  /** Distance 0 exactly when the two patterns have the same set of tokens. */
  lemma {:induction false} DistanceZero(a: Pattern, b: Pattern)
    ensures Distance(a, b) == 0 <==> (forall t :: t in Tokens(a) <==> t in Tokens(b))
  {
    CountAbsentZero(Tokens(a), Tokens(b));
    CountAbsentZero(Tokens(b), Tokens(a));
  }

  /** A pattern is at distance 0 from itself. */
  lemma {:induction false} DistanceSelf(a: Pattern)
    ensures Distance(a, a) == 0
  {
    DistanceZero(a, a);
  }

  lemma {:induction false} CountAbsentAll(xs: seq<Token>, ys: seq<Token>)
    requires forall t :: t in xs ==> t !in ys
    ensures CountAbsent(xs, ys) == |xs|
  {
    if xs != [] {
      assert xs[0] in xs;
      CountAbsentAll(xs[1..], ys);
    }
  }

  /**
   * Because "" splits to one empty token, an empty pattern is at distance
   * k + 1 from a pattern of k events.
   */
  lemma {:induction false} DistanceFromEmpty(p: Pattern)
    requires p != []
    ensures Distance([], p) == |p| + 1
  {
    var tp := Tokens(p);
    assert Blank !in tp;
    CountAbsentAll(tp, [Blank]);
    assert CountAbsent([Blank], tp) == 1 + CountAbsent([], tp);
  }


  lemma {:induction false} CountAbsentCard(xs: seq<Token>, ys: seq<Token>)
    requires NoDuplicates(xs)
    ensures CountAbsent(xs, ys) == |Elements(xs) - Elements(ys)|
  {
    if xs != [] {
      var x, t := xs[0], xs[1..];
      assert NoDuplicates(t);
      CountAbsentCard(t, ys);
      var et, ey := Elements(t), Elements(ys);
      ElementsCons(xs);
      assert x !in et;
      if x in ys {
        assert Elements(xs) - ey == et - ey;
      } else {
        assert Elements(xs) - ey == {x} + (et - ey);
        CardAddOne(x, et - ey);
      }
    }
  }

  /**
   * On patterns without repeated events the distance is the size of the
   * symmetric difference of their token sets.
   */
  lemma {:induction false} DistanceIsSymmetricDifference(a: Pattern, b: Pattern)
    requires NoDuplicates(a) && NoDuplicates(b)
    ensures Distance(a, b) == |Elements(Tokens(a)) - Elements(Tokens(b))| + |Elements(Tokens(b)) - Elements(Tokens(a))|
  {
    assert NoDuplicates(Tokens(a));
    assert NoDuplicates(Tokens(b));
    CountAbsentCard(Tokens(a), Tokens(b));
    CountAbsentCard(Tokens(b), Tokens(a));
  }

  /**
   * snpDifferences writes one token per unit of distance: a's missing tokens
   * first, then b's, and nothing else.
   */
  lemma {:induction false} DifferencesMatchDistance(a: Pattern, b: Pattern)
    ensures |Differences(a, b)| == Distance(a, b)
    ensures |Absent(Tokens(a), Tokens(b))| == CountAbsent(Tokens(a), Tokens(b))
    ensures forall i :: 0 <= i < CountAbsent(Tokens(a), Tokens(b)) ==>
      Differences(a, b)[i] in Tokens(a) && Differences(a, b)[i] !in Tokens(b)
    ensures forall i :: CountAbsent(Tokens(a), Tokens(b)) <= i < |Differences(a, b)| ==>
      Differences(a, b)[i] in Tokens(b) && Differences(a, b)[i] !in Tokens(a)
  {
    AbsentCount(Tokens(a), Tokens(b));
    AbsentCount(Tokens(b), Tokens(a));
    var d := Differences(a, b);
    var n := CountAbsent(Tokens(a), Tokens(b));
    forall i | 0 <= i < n ensures d[i] in Tokens(a) && d[i] !in Tokens(b) {
      assert d[i] == Absent(Tokens(a), Tokens(b))[i];
    }
    forall i | n <= i < |d| ensures d[i] in Tokens(b) && d[i] !in Tokens(a) {
      assert d[i] == Absent(Tokens(b), Tokens(a))[i - n];
    }
  }
}
