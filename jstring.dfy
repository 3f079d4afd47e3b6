/**
 * The parts of java.lang.String the program relies on, over seq<char>:
 * split on a one-character literal separator, and lastIndexOf.
 */
module JString {
  /** Every piece of s between separators c, empty ones included (one more piece than separators). */
  function Pieces(s: string, c: char): (ps: seq<string>)
    ensures |ps| >= 1
    decreases |s|
  {
    if s == [] then [""]
    else
      var rest := Pieces(s[1..], c);
      if s[0] == c then [""] + rest else [[s[0]] + rest[0]] + rest[1..]
  }

  /** Removes the trailing run of empty strings. */
  function DropTrailingEmpty(ps: seq<string>): (r: seq<string>)
    ensures r <= ps
    ensures r == [] || r[|r| - 1] != ""
    ensures forall i :: |r| <= i < |ps| ==> ps[i] == ""
  {
    if ps == [] then []
    else if ps[|ps| - 1] == "" then DropTrailingEmpty(ps[..|ps| - 1])
    else ps
  }

  /**
   * s.split(c) for a literal one-character separator: a string without the
   * separator is returned whole (so "" splits to [""]); otherwise the pieces,
   * with trailing empty pieces removed (so "," splits to []).
   */
  function Split(s: string, c: char): seq<string>
  {
    if c !in s then [s] else DropTrailingEmpty(Pieces(s, c))
  }

  /** The concatenation of p + [c] over all pieces: a separator-terminated list. */
  function Terminated(ps: seq<string>, c: char): string
  {
    if ps == [] then "" else ps[0] + [c] + Terminated(ps[1..], c)
  }

  lemma {:induction false} PiecesPrefix(p: string, c: char, t: string)
    requires c !in p
    ensures Pieces(p + [c] + t, c) == [p] + Pieces(t, c)
    decreases |p|
  {
    if p == [] {
      assert p + [c] + t == [c] + t;
      assert ([c] + t)[1..] == t;
    } else {
      assert (p + [c] + t)[1..] == p[1..] + [c] + t;
      PiecesPrefix(p[1..], c, t);
      assert [p[0]] + p[1..] == p;
    }
  }

  lemma {:induction false} PiecesNoSeparator(t: string, c: char)
    requires c !in t
    ensures Pieces(t, c) == [t]
    decreases |t|
  {
    if t != [] {
      PiecesNoSeparator(t[1..], c);
      assert [t[0]] + t[1..] == t;
    }
  }

  lemma {:induction false} PiecesTerminated(ps: seq<string>, c: char)
    requires forall i :: 0 <= i < |ps| ==> c !in ps[i]
    ensures Pieces(Terminated(ps, c), c) == ps + [""]
  {
    if ps != [] {
      PiecesTerminated(ps[1..], c);
      PiecesPrefix(ps[0], c, Terminated(ps[1..], c));
      assert ps == [ps[0]] + ps[1..];
    }
  }

  /**
   * Splitting a separator-terminated list of non-empty, separator-free pieces
   * gives back exactly those pieces.
   */
  lemma {:induction false} SplitTerminated(ps: seq<string>, c: char)
    requires |ps| >= 1
    requires forall i :: 0 <= i < |ps| ==> c !in ps[i]
    requires ps[|ps| - 1] != ""
    ensures Split(Terminated(ps, c), c) == ps
  {
    PiecesTerminated(ps, c);
    assert Terminated(ps, c) == ps[0] + [c] + Terminated(ps[1..], c);
    assert c in Terminated(ps, c) by {
      assert (ps[0] + [c] + Terminated(ps[1..], c))[|ps[0]|] == c;
    }
    assert (ps + [""])[..|ps + [""]| - 1] == ps;
  }

  /** Splitting "a<c>b<c>d" with separator-free a, b and non-empty d gives [a, b, d]. */
  lemma {:induction false} SplitThree(a: string, b: string, d: string, c: char)
    requires c !in a && c !in b && c !in d && d != ""
    ensures Split(a + [c] + b + [c] + d, c) == [a, b, d]
  {
    var s := a + [c] + b + [c] + d;
    assert s == a + [c] + (b + [c] + d);
    PiecesPrefix(a, c, b + [c] + d);
    PiecesPrefix(b, c, d);
    PiecesNoSeparator(d, c);
    assert s[|a|] == c;
  }

  /** s.lastIndexOf(c): the last index holding c, or -1. */
  function LastIndexOf(s: string, c: char): (r: int)
    ensures -1 <= r < |s|
    ensures r == -1 <==> c !in s
    ensures r >= 0 ==> s[r] == c && forall i :: r < i < |s| ==> s[i] != c
  {
    if s == [] then -1
    else if s[|s| - 1] == c then |s| - 1
    else LastIndexOf(s[..|s| - 1], c)
  }
}
