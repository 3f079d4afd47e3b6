/**
 * The stable sort behind every Collections.sort of the program, written as
 * insertion by a real-valued key (ascending).  A descending comparator is the
 * same sort on the negated key.
 */
module Sorting {
  /** Non-decreasing by key. */
  predicate SortedBy<T>(s: seq<T>, key: T -> real)
  {
    forall i, j :: 0 <= i < j < |s| ==> key(s[i]) <= key(s[j])
  }

  /** The elements of s whose key is v, in their original order. */
  function WithKey<T>(s: seq<T>, key: T -> real, v: real): seq<T>
  {
    if s == [] then [] else (if key(s[0]) == v then [s[0]] else []) + WithKey(s[1..], key, v)
  }

  /** Insert x after every element whose key is not greater than key(x). */
  function Insert<T>(s: seq<T>, x: T, key: T -> real): (r: seq<T>)
    ensures multiset(r) == multiset(s) + multiset{x}
    ensures |r| == |s| + 1
  {
    if s == [] then [x]
    else if key(x) < key(s[0]) then [x] + s
    else
      assert s == [s[0]] + s[1..];
      [s[0]] + Insert(s[1..], x, key)
  }

  /** Stable sort: the last element is inserted into the sorted prefix. */
  function SortBy<T>(s: seq<T>, key: T -> real): (r: seq<T>)
    ensures multiset(r) == multiset(s)
    ensures |r| == |s|
    ensures SortedBy(r, key)
  {
    if s == [] then []
    else
      var r := SortBy(s[..|s| - 1], key);
      assert s == s[..|s| - 1] + [s[|s| - 1]];
      InsertSorted(r, s[|s| - 1], key);
      Insert(r, s[|s| - 1], key)
  }

  lemma {:induction false} InsertSorted<T>(s: seq<T>, x: T, key: T -> real)
    requires SortedBy(s, key)
    ensures SortedBy(Insert(s, x, key), key)
  {
    if s != [] && key(x) >= key(s[0]) {
      InsertSorted(s[1..], x, key);
      var t := Insert(s[1..], x, key);
      assert multiset(t) == multiset(s[1..]) + multiset{x};
      forall j | 0 <= j < |t| ensures key(s[0]) <= key(t[j]) {
        assert t[j] in multiset(t);
        if t[j] == x {
        } else {
          assert t[j] in multiset(s[1..]);
          var k :| 0 <= k < |s[1..]| && s[1..][k] == t[j];
          assert s[k + 1] == t[j];
        }
      }
    }
  }

  lemma {:induction false} WithKeyAppend<T>(s: seq<T>, x: T, key: T -> real, v: real)
    ensures WithKey(s + [x], key, v) == WithKey(s, key, v) + (if key(x) == v then [x] else [])
  {
    if s == [] {
      assert WithKey([x], key, v) == (if key(x) == v then [x] else []) + WithKey([], key, v);
    } else {
      var t := s[1..];
      assert (s + [x])[0] == s[0] && (s + [x])[1..] == t + [x];
      WithKeyAppend(t, x, key, v);
      var h := if key(s[0]) == v then [s[0]] else [];
      assert WithKey(s + [x], key, v) == h + WithKey(t + [x], key, v);
      assert WithKey(s, key, v) == h + WithKey(t, key, v);
    }
  }

  lemma {:induction false} WithKeyAbsent<T>(s: seq<T>, key: T -> real, v: real)
    requires forall i :: 0 <= i < |s| ==> key(s[i]) > v
    ensures WithKey(s, key, v) == []
  {
    if s != [] {
      WithKeyAbsent(s[1..], key, v);
    }
  }

  lemma {:induction false} WithKeyInsert<T>(s: seq<T>, x: T, key: T -> real, v: real)
    requires SortedBy(s, key)
    ensures WithKey(Insert(s, x, key), key, v) == WithKey(s, key, v) + (if key(x) == v then [x] else [])
  {
    var tail := if key(x) == v then [x] else [];
    if s == [] {
      assert WithKey([x], key, v) == tail + WithKey([], key, v);
    } else if key(x) < key(s[0]) {
      assert Insert(s, x, key) == [x] + s;
      WithKeyCons(x, s, key, v);
      if key(x) == v {
        WithKeyAbsent(s, key, v);
        assert WithKey(s, key, v) + tail == tail + WithKey(s, key, v);
      } else {
        assert WithKey(s, key, v) + tail == tail + WithKey(s, key, v);
      }
    } else {
      assert SortedBy(s[1..], key);
      WithKeyInsert(s[1..], x, key, v);
      var ins := Insert(s[1..], x, key);
      assert Insert(s, x, key) == [s[0]] + ins;
      WithKeyCons(s[0], ins, key, v);
      ConcatAssoc(if key(s[0]) == v then [s[0]] else [], WithKey(s[1..], key, v), tail);
    }
  }

  lemma ConcatAssoc<T>(a: seq<T>, b: seq<T>, c: seq<T>)
    ensures a + (b + c) == (a + b) + c
  {
  }

  lemma WithKeyCons<T>(y: T, t: seq<T>, key: T -> real, v: real)
    ensures WithKey([y] + t, key, v) == (if key(y) == v then [y] else []) + WithKey(t, key, v)
  {
    assert ([y] + t)[1..] == t;
  }

  /**
   * Stability: among elements with equal keys the sort keeps the input order.
   */
  lemma {:induction false} SortByStable<T>(s: seq<T>, key: T -> real, v: real)
    ensures WithKey(SortBy(s, key), key, v) == WithKey(s, key, v)
  {
    if s != [] {
      var init, x := s[..|s| - 1], s[|s| - 1];
      assert s == init + [x];
      SortByStable(init, key, v);
      WithKeyInsert(SortBy(init, key), x, key, v);
      WithKeyAppend(init, x, key, v);
    }
  }

  /** The second components of a sequence of (key, value) pairs, in order. */
  function Untag<T>(s: seq<(real, T)>): (r: seq<T>)
    ensures |r| == |s|
    ensures forall i :: 0 <= i < |s| ==> r[i] == s[i].1
  {
    seq(|s|, i requires 0 <= i < |s| => s[i].1)
  }

  /** The key of a (key, value) pair. */
  function Tag<T>(p: (real, T)): real { p.0 }

  lemma UntagConcat<T>(p: seq<(real, T)>, q: seq<(real, T)>)
    ensures Untag(p + q) == Untag(p) + Untag(q)
  {
  }

  lemma CancelOne<T>(a: seq<T>, x: T, front: seq<T>, back: seq<T>)
    requires multiset(a + [x]) == multiset(front + [x] + back)
    ensures multiset(a) == multiset(front + back)
  {
    assert multiset(a + [x]) == multiset(a) + multiset{x};
    assert multiset(front + [x] + back) == multiset(front) + multiset{x} + multiset(back);
    assert multiset(front + back) == multiset(front) + multiset(back);
    forall e ensures multiset(a)[e] == multiset(front + back)[e] {
      assert multiset(a + [x])[e] == multiset(front + [x] + back)[e];
    }
  }

  /** Permuting the pairs permutes their second components alike. */
  lemma {:induction false} UntagPermutation<T>(a: seq<(real, T)>, b: seq<(real, T)>)
    requires multiset(a) == multiset(b)
    ensures multiset(Untag(a)) == multiset(Untag(b))
  {
    if a == [] {
      assert |b| == |multiset(b)| == 0;
    } else {
      var x := a[|a| - 1];
      var a' := a[..|a| - 1];
      assert a == a' + [x];
      assert x in multiset(b);
      assert x in b;
      var k :| 0 <= k < |b| && b[k] == x;
      var front, back := b[..k], b[k + 1..];
      assert b == front + [x] + back;
      var b' := front + back;
      CancelOne(a', x, front, back);
      UntagPermutation(a', b');
      UntagConcat(a', [x]);
      UntagConcat(front + [x], back);
      UntagConcat(front, [x]);
      UntagConcat(front, back);
    }
  }
}
