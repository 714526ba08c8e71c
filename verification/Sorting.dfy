/** Stable sorting by a key, as Python's `sort` and `sorted` do it. */
module Sorting {

  ghost predicate SortedBy<T(!new)>(s: seq<T>, key: T -> real) {
    forall i, j | 0 <= i < j < |s| :: key(s[i]) <= key(s[j])
  }

  /** Place `x` after every element whose key is not greater. */
  function Insert<T(!new)>(s: seq<T>, x: T, key: T -> real): (r: seq<T>)
    ensures |r| == |s| + 1
    ensures forall y :: y in r <==> y == x || y in s
  {
    if s == [] then [x]
    else if key(x) < key(s[0]) then [x] + s
    else [s[0]] + Insert(s[1..], x, key)
  }

  lemma {:induction false} InsertPermutes<T(!new)>(s: seq<T>, x: T, key: T -> real)
    ensures multiset(Insert(s, x, key)) == multiset(s) + multiset{x}
  {
    if s != [] {
      assert s == [s[0]] + s[1..];
      if key(x) >= key(s[0]) {
        InsertPermutes(s[1..], x, key);
      }
    }
  }

  lemma {:induction false} ConsSorted<T(!new)>(x: T, s: seq<T>, key: T -> real)
    requires SortedBy(s, key) && forall y | y in s :: key(x) <= key(y)
    ensures SortedBy([x] + s, key)
  {
  }

  lemma {:induction false} InsertSorts<T(!new)>(s: seq<T>, x: T, key: T -> real)
    requires SortedBy(s, key)
    ensures SortedBy(Insert(s, x, key), key)
  {
    if s != [] {
      forall y | y in s ensures key(s[0]) <= key(y) {
        var j :| 0 <= j < |s| && s[j] == y;
        assert j == 0 || key(s[0]) <= key(s[j]);
      }
      if key(x) < key(s[0]) {
        ConsSorted(x, s, key);
      } else {
        InsertSorts(s[1..], x, key);
        ConsSorted(s[0], Insert(s[1..], x, key), key);
      }
    }
  }

  function SortBy<T(!new)>(s: seq<T>, key: T -> real): (r: seq<T>)
    ensures SortedBy(r, key)
    ensures multiset(r) == multiset(s)
  {
    if s == [] then []
    else
      assert s == s[..|s| - 1] + [s[|s| - 1]];
      var init := SortBy(s[..|s| - 1], key);
      InsertSorts(init, s[|s| - 1], key);
      InsertPermutes(init, s[|s| - 1], key);
      Insert(init, s[|s| - 1], key)
  }

  lemma {:induction false} SameElements<T>(a: seq<T>, b: seq<T>)
    requires multiset(a) == multiset(b)
    ensures |a| == |b|
    ensures forall x :: x in a <==> x in b
  {
    assert |a| == |multiset(a)| == |multiset(b)| == |b|;
    assert forall x :: x in a <==> x in multiset(a);
    assert forall x :: x in b <==> x in multiset(b);
  }

  ghost predicate NoRepeats<T>(s: seq<T>) { forall i, j | 0 <= i < j < |s| :: s[i] != s[j] }

  lemma {:induction false} CountedOnce<T>(s: seq<T>, x: T)
    requires NoRepeats(s)
    ensures multiset(s)[x] <= 1
  {
    if s != [] {
      var init, last := s[..|s| - 1], s[|s| - 1];
      assert s == init + [last];
      CountedOnce(init, x);
      assert x == last ==> x !in init;
    }
  }

  /** Reordering creates no repeats. */
  lemma {:induction false} ReorderedNoRepeats<T>(a: seq<T>, b: seq<T>)
    requires NoRepeats(a) && multiset(a) == multiset(b)
    ensures NoRepeats(b)
  {
    forall i, j | 0 <= i < j < |b| ensures b[i] != b[j] {
      var rest := b[..j] + b[j + 1..];
      assert b == b[..j] + [b[j]] + b[j + 1..];
      assert multiset(b) == multiset(rest) + multiset{b[j]};
      CountedOnce(a, b[j]);
      assert rest[i] == b[i] && rest[i] in multiset(rest);
    }
  }

  function SumOf<T>(s: seq<T>, weight: T -> nat): nat {
    if s == [] then 0 else weight(s[0]) + SumOf(s[1..], weight)
  }

  lemma {:induction false} SumOfAppend<T>(s: seq<T>, t: seq<T>, weight: T -> nat)
    ensures SumOf(s + t, weight) == SumOf(s, weight) + SumOf(t, weight)
  {
    if s == [] {
      assert s + t == t;
    } else {
      assert (s + t)[1..] == s[1..] + t;
      SumOfAppend(s[1..], t, weight);
    }
  }

  lemma {:induction false} InsertKeepsSum<T(!new)>(s: seq<T>, x: T, key: T -> real, weight: T -> nat)
    ensures SumOf(Insert(s, x, key), weight) == SumOf(s, weight) + weight(x)
  {
    if s != [] {
      if key(x) < key(s[0]) {
        assert ([x] + s)[1..] == s;
      } else {
        InsertKeepsSum(s[1..], x, key, weight);
        assert ([s[0]] + Insert(s[1..], x, key))[1..] == Insert(s[1..], x, key);
      }
    }
  }

  lemma {:induction false} SortKeepsSum<T(!new)>(s: seq<T>, key: T -> real, weight: T -> nat)
    ensures SumOf(SortBy(s, key), weight) == SumOf(s, weight)
  {
    if s != [] {
      var init, last := s[..|s| - 1], s[|s| - 1];
      assert s == init + [last];
      SortKeepsSum(init, key, weight);
      InsertKeepsSum(SortBy(init, key), last, key, weight);
      SumOfAppend(init, [last], weight);
    }
  }

  lemma {:induction false} SortedSame<T(!new)>(s: seq<T>, a: T -> real, b: T -> real)
    requires SortedBy(s, a) && forall x | x in s :: a(x) == b(x)
    ensures SortedBy(s, b)
  {
  }

  lemma {:induction false} SumSame<T>(s: seq<T>, a: T -> nat, b: T -> nat)
    requires forall x | x in s :: a(x) == b(x)
    ensures SumOf(s, a) == SumOf(s, b)
  {
    if s != [] { SumSame(s[1..], a, b); }
  }
}
