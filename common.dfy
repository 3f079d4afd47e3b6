/** Small shared vocabulary: optional values and folds over sequences of reals. */
module Common {
  datatype Option<T> = None | Some(value: T)

  /** Sum of a sequence of reals, folded from the left as a Java loop does. */
  function Sum(s: seq<real>): real
  {
    if s == [] then 0.0 else Sum(s[..|s| - 1]) + s[|s| - 1]
  }

  /** Arithmetic mean of a non-empty sequence (the role of Functions.average). */
  function Mean(s: seq<real>): real
    requires |s| > 0
  {
    Sum(s) / (|s| as real)
  }

  /** Least element of a non-empty sequence (the role of Functions.min). */
  function Min(s: seq<real>): (m: real)
    requires |s| > 0
    ensures m in s
    ensures forall i :: 0 <= i < |s| ==> m <= s[i]
  {
    if |s| == 1 then s[0]
    else
      var m := Min(s[..|s| - 1]);
      assert forall i :: 0 <= i < |s| - 1 ==> s[..|s| - 1][i] == s[i];
      if s[|s| - 1] < m then s[|s| - 1] else m
  }

  function Max2(a: real, b: real): real { if a >= b then a else b }
  function Min2(a: real, b: real): real { if a <= b then a else b }

  /** A fraction in [0, 1) of a non-negative m lies in [0, m]. */
  lemma FractionOf(d: real, m: real)
    requires 0.0 <= d < 1.0 && m >= 0.0
    ensures 0.0 <= d * m <= m
  {
    assert (1.0 - d) * m >= 0.0;
    assert (1.0 - d) * m == m - d * m;
  }

  /** A part c of a positive whole n is a fraction in [0, 1], below 1 when c < n. */
  lemma FractionBounds(c: real, n: real)
    requires 0.0 <= c <= n && n > 0.0
    ensures 0.0 <= c / n <= 1.0
    ensures c < n ==> c / n < 1.0
  {
  }

  lemma DivMonotone(a: real, b: real, n: real)
    requires a <= b && n > 0.0
    ensures a / n <= b / n
  {
  }

  lemma DivNonNegative(a: real, b: real)
    requires a >= 0.0 && b > 0.0
    ensures a / b >= 0.0
  {
  }

  lemma DivideSum(a: real, b: real, len: real)
    requires len != 0.0
    ensures (a + b) / len == a / len + b / len
  {
  }

  /** Deleting entry i leaves the entries before it and shifts those after it. */
  lemma RemoveAt<T>(p: seq<T>, i: nat)
    requires i < |p|
    ensures (p[..i] + p[i + 1..])[..i] == p[..i] && (p[..i] + p[i + 1..])[i..] == p[i + 1..]
  {
  }

  /** Keeping entry i extends the prefix by it. */
  lemma KeepAt<T>(p: seq<T>, i: nat)
    requires i < |p|
    ensures p[..i + 1] == p[..i] + [p[i]]
  {
  }

  /** Equal non-empty suffixes start with the same entry and stay equal after it. */
  lemma SuffixStep<T>(a: seq<T>, b: seq<T>, i: nat, j: nat)
    requires i < |a| && j <= |b| && a[i..] == b[j..]
    ensures j < |b| && a[i] == b[j] && a[i + 1..] == b[j + 1..]
  {
    assert |a[i..]| == |b[j..]|;
    assert a[i..][0] == b[j..][0];
    assert a[i..][1..] == b[j..][1..];
  }

  /** Two quotients by the same divisor add up to the quotient of the sum. */
  lemma SumOfQuotients(x: real, y: real, a: real, b: real, len: real)
    requires len != 0.0 && x == a / len && y == b / len
    ensures x + y == (a + b) / len
  {
    DivideSum(a, b, len);
  }

  lemma {:induction false} SumAppend(s: seq<real>, x: real)
    ensures Sum(s + [x]) == Sum(s) + x
  {
    assert (s + [x])[..|s + [x]| - 1] == s;
  }

  lemma {:induction false} SumNonNegative(s: seq<real>)
    requires forall i :: 0 <= i < |s| ==> s[i] >= 0.0
    ensures Sum(s) >= 0.0
  {
    if s != [] {
      SumNonNegative(s[..|s| - 1]);
    }
  }

  /**
   * The members of a set in some order: how the model walks the key set of
   * a hash map, whose iteration order is not specified.
   */
  method Enumerate<T>(s: set<T>) returns (xs: seq<T>)
    ensures |xs| == |s|
    ensures forall x :: x in xs <==> x in s
    ensures NoDuplicates(xs)
  {
    xs := [];
    var rest := s;
    while rest != {}
      invariant rest <= s && |xs| + |rest| == |s|
      invariant forall x :: x in xs <==> x in s && x !in rest
      invariant forall i, j :: 0 <= i < j < |xs| ==> xs[i] != xs[j]
      decreases |rest|
    {
      var x :| x in rest;
      xs := xs + [x];
      rest := rest - {x};
    }
  }

  /** Some element of a non-empty set, as an iterator's next() hands it out. */
  method Choose<T>(s: set<T>) returns (x: T)
    requires s != {}
    ensures x in s
  {
    x :| x in s;
  }

  predicate NoDuplicates<T(==)>(s: seq<T>)
  {
    forall i, j :: 0 <= i < j < |s| ==> s[i] != s[j]
  }

  function Elements<T(==)>(s: seq<T>): set<T> { set x | x in s }

  lemma ElementsCons<T>(s: seq<T>)
    requires s != []
    ensures Elements(s) == {s[0]} + Elements(s[1..])
  {
    assert s == [s[0]] + s[1..];
  }

  lemma CardAddOne<T>(d: T, xs: set<T>)
    requires d !in xs
    ensures |{d} + xs| == |xs| + 1
  {
  }

  lemma {:induction false} PermutationKeepsElements<T>(a: seq<T>, b: seq<T>)
    requires multiset(a) == multiset(b) && NoDuplicates(a)
    ensures NoDuplicates(b) && Elements(a) == Elements(b)
  {
    assert forall e :: e in a <==> e in multiset(a);
    assert forall e :: e in b <==> e in multiset(b);
    forall i, j | 0 <= i < j < |b| ensures b[i] != b[j] {
      DistinctCount(a, b[i]);
      RepeatCount(b, i, j);
    }
  }

  lemma RepeatCount<T>(b: seq<T>, i: nat, j: nat)
    requires i < j < |b|
    ensures b[i] == b[j] ==> multiset(b)[b[i]] >= 2
  {
    assert b == b[..i] + [b[i]] + b[i + 1..j] + [b[j]] + b[j + 1..];
  }

  lemma {:induction false} DistinctCount<T>(a: seq<T>, e: T)
    requires NoDuplicates(a)
    ensures multiset(a)[e] <= 1
  {
    if a != [] {
      assert NoDuplicates(a[1..]);
      DistinctCount(a[1..], e);
      assert a == [a[0]] + a[1..];
      if a[0] == e {
        assert e !in a[1..];
      }
    }
  }

}
