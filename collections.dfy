/** Facts about finite collections that the engine and the classifier both use. */
module Collections {

  /** The set of the elements of a sequence. */
  function Elements<T>(s: seq<T>): set<T> {
    set x | x in s
  }

  /** No element of `s` occurs twice. */
  predicate Distinct<T(==)>(s: seq<T>) {
    forall i, j :: 0 <= i < j < |s| ==> s[i] != s[j]
  }

  /** A sequence without repetitions has as many elements as its set. */
  lemma {:induction false} DistinctCard<T>(s: seq<T>)
    requires Distinct(s)
    ensures |Elements(s)| == |s|
  {
    if |s| > 0 {
      var q := s[..|s| - 1];
      DistinctCard(q);
      var eq := Elements(q);
      assert Elements(s) == eq + {s[|s| - 1]} by {
        assert s == q + [s[|s| - 1]];
      }
      assert s[|s| - 1] !in eq;
      assert |eq + {s[|s| - 1]}| == |eq| + 1;
    }
  }

  lemma {:induction false} SubsetCard<T>(a: set<T>, b: set<T>)
    requires a <= b
    ensures |a| <= |b|
    decreases |b|
  {
    if a != {} {
      var x :| x in a;
      SubsetCard(a - {x}, b - {x});
    }
  }

  /** A sequence without repetitions holds each value at most once. */
  lemma {:induction false} DistinctCount<T>(s: seq<T>, x: T)
    requires Distinct(s)
    ensures multiset(s)[x] <= 1
  {
    if |s| > 0 {
      var rest := s[1..];
      assert Distinct(rest) by {
        forall i, j | 0 <= i < j < |rest| ensures rest[i] != rest[j] {
          assert rest[i] == s[i + 1] && rest[j] == s[j + 1];
        }
      }
      DistinctCount(rest, x);
      assert s == [s[0]] + rest;
      assert multiset(s) == multiset([s[0]]) + multiset(rest);
      assert forall k :: 0 <= k < |rest| ==> rest[k] == s[k + 1];
      assert s[0] !in rest;
    }
  }

  /** A value at two positions of a sequence is counted at least twice. */
  lemma RepeatCount<T>(s: seq<T>, i: int, j: int)
    requires 0 <= i < j < |s|
    ensures s[i] == s[j] ==> multiset(s)[s[i]] >= 2
  {
    var a, m, c := s[..i], s[i + 1..j], s[j + 1..];
    assert s == a + [s[i]] + m + [s[j]] + c;
    assert multiset(s) == multiset(a) + multiset([s[i]]) + multiset(m) + multiset([s[j]]) + multiset(c);
  }

  /** A rearrangement of a sequence without repetitions has none either. */
  lemma DistinctPermutation<T>(a: seq<T>, b: seq<T>)
    requires multiset(a) == multiset(b) && Distinct(a)
    ensures Distinct(b)
  {
    forall i, j | 0 <= i < j < |b| ensures b[i] != b[j] {
      RepeatCount(b, i, j);
      DistinctCount(a, b[i]);
    }
  }

  /** A proper subset has fewer elements. */
  lemma StrictSubsetCard<T>(a: set<T>, b: set<T>)
    requires a < b
    ensures |a| < |b|
  {
    assert !(b <= a);
    var x :| x in b && x !in a;
    assert b == a + (b - a);
    assert |b - a| >= 1 by {
      assert x in b - a;
    }
  }

  /** A sequence is empty exactly when it has no elements. */
  lemma EmptyIffNoElements<T>(s: seq<T>)
    ensures |s| == 0 <==> Elements(s) == {}
  {
    if |s| > 0 {
      assert s[0] in Elements(s);
    }
  }

  /** The least element of a non-empty finite set of naturals. */
  ghost function Least(s: set<nat>): (m: nat)
    requires s != {}
    ensures m in s && forall y :: y in s ==> m <= y
  {
    var x :| x in s;
    if s == {x} then x
    else
      var rest := Least(s - {x});
      assert forall y :: y in s ==> y == x || y in s - {x};
      if x <= rest then x else rest
  }

  /** The greatest element of a non-empty finite set of naturals. */
  ghost function Greatest(s: set<nat>): (m: nat)
    requires s != {}
    ensures m in s && forall y :: y in s ==> y <= m
  {
    var x :| x in s;
    if s == {x} then x
    else
      var rest := Greatest(s - {x});
      assert forall y :: y in s ==> y == x || y in s - {x};
      if rest <= x then x else rest
  }
}
