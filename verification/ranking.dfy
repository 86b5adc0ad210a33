/**
 * Ordering by a real-valued score, as `Array.prototype.sort` does it with a
 * comparator `(a, b) => key(b) - key(a)`: descending, and stable (entries
 * with equal keys keep their relative order), as required of `sort` since
 * the 2019 edition of ECMA-262.
 */
module Ranking {

  predicate NonIncreasing<T>(s: seq<T>, key: T -> real) {
    forall i, j :: 0 <= i < j < |s| ==> key(s[i]) >= key(s[j])
  }

  /** The entries of `s` whose key is exactly `k`, in their order in `s`.
      A stable sort leaves every such subsequence unchanged. */
  function WithKey<T>(s: seq<T>, key: T -> real, k: real): seq<T> {
    if |s| == 0 then [] else (if key(s[0]) == k then [s[0]] else []) + WithKey(s[1..], key, k)
  }

  /** The elements of a given key split over a concatenation. */
  lemma {:induction false} WithKeyAppend<T>(a: seq<T>, b: seq<T>, key: T -> real, k: real)
    ensures WithKey(a + b, key, k) == WithKey(a, key, k) + WithKey(b, key, k)
  {
    if |a| == 0 {
      assert a + b == b;
    } else {
      var head := if key(a[0]) == k then [a[0]] else [];
      var x, y := WithKey(a[1..], key, k), WithKey(b, key, k);
      assert (a + b)[1..] == a[1..] + b;
      WithKeyAppend(a[1..], b, key, k);
      assert WithKey(a + b, key, k) == head + (x + y);
      assert WithKey(a, key, k) == head + x;
      assert head + (x + y) == (head + x) + y;
    }
  }

  /** A list with no element of a given key has none to keep. */
  lemma {:induction false} WithKeyAbsent<T>(s: seq<T>, key: T -> real, k: real)
    requires forall i :: 0 <= i < |s| ==> key(s[i]) != k
    ensures WithKey(s, key, k) == []
  {
    if |s| > 0 {
      WithKeyAbsent(s[1..], key, k);
    }
  }

  /** Places `x` after every entry whose key is at least its own. */
  function Insert<T>(s: seq<T>, x: T, key: T -> real): seq<T> {
    if |s| == 0 then [x]
    else if key(s[0]) >= key(x) then [s[0]] + Insert(s[1..], x, key)
    else [x] + s
  }

  /** Inserting adds exactly `x` to the entries. */
  lemma {:induction false} InsertMultiset<T>(s: seq<T>, x: T, key: T -> real)
    ensures multiset(Insert(s, x, key)) == multiset(s) + multiset{x}
  {
    if |s| > 0 && key(s[0]) >= key(x) {
      InsertMultiset(s[1..], x, key);
      assert s == [s[0]] + s[1..];
    }
  }

  /** Inserting into a ranked sequence keeps it ranked. */
  lemma {:induction false} InsertSorted<T>(s: seq<T>, x: T, key: T -> real)
    requires NonIncreasing(s, key)
    ensures NonIncreasing(Insert(s, x, key), key)
  {
    if |s| > 0 && key(s[0]) >= key(x) {
      NonIncreasingTail(s, key);
      InsertSorted(s[1..], x, key);
      InsertMultiset(s[1..], x, key);
      var rest := Insert(s[1..], x, key);
      assert s == [s[0]] + s[1..];
      HeadOverRest(s[0], rest, s[1..], x, key);
    } else if |s| > 0 {
      assert NonIncreasing([x] + s, key) by {
        forall i, j | 0 <= i < j < |s| + 1 ensures key(([x] + s)[i]) >= key(([x] + s)[j]) {
          if i > 0 {
            assert ([x] + s)[i] == s[i - 1];
          } else {
            assert key(s[0]) >= key(s[j - 1]);
          }
        }
      }
    }
  }

  /** The tail of a non-increasing list is non-increasing. */
  lemma NonIncreasingTail<T>(s: seq<T>, key: T -> real)
    requires |s| > 0 && NonIncreasing(s, key)
    ensures NonIncreasing(s[1..], key)
  {
    assert forall i :: 0 <= i < |s| - 1 ==> s[1..][i] == s[i + 1];
  }

  /** A head at least as large as every later element keeps the list non-increasing. */
  lemma HeadOverRest<T>(h: T, rest: seq<T>, tail: seq<T>, x: T, key: T -> real)
    requires NonIncreasing(rest, key)
    requires multiset(rest) == multiset(tail) + multiset{x}
    requires key(h) >= key(x)
    requires forall y :: y in tail ==> key(h) >= key(y)
    ensures NonIncreasing([h] + rest, key)
  {
    var r := [h] + rest;
    forall i, j | 0 <= i < j < |r| ensures key(r[i]) >= key(r[j]) {
      assert r[j] == rest[j - 1];
      if i > 0 {
        assert r[i] == rest[i - 1];
      } else {
        assert rest[j - 1] in multiset(rest);
      }
    }
  }

  /** The elements of a given key in a list with a head. */
  lemma WithKeyCons<T>(h: T, t: seq<T>, key: T -> real, k: real)
    ensures WithKey([h] + t, key, k) == (if key(h) == k then [h] else []) + WithKey(t, key, k)
  {
    assert ([h] + t)[1..] == t;
  }

  /** Inserting appends `x` to the entries that share its key, and leaves the
      entries of every other key in place. */
  lemma {:induction false} InsertWithKey<T>(s: seq<T>, x: T, key: T -> real, k: real)
    requires NonIncreasing(s, key)
    ensures WithKey(Insert(s, x, key), key, k) == WithKey(s, key, k) + (if key(x) == k then [x] else [])
  {
    if |s| > 0 && key(s[0]) >= key(x) {
      NonIncreasingTail(s, key);
      InsertWithKey(s[1..], x, key, k);
      InsertWithKeyBehind(s, x, key, k);
    } else {
      InsertWithKeyInFront(s, x, key, k);
    }
  }

  /** An element no larger than the head goes behind it. */
  lemma InsertBehind<T>(s: seq<T>, x: T, key: T -> real)
    requires |s| > 0 && key(s[0]) >= key(x)
    ensures Insert(s, x, key) == [s[0]] + Insert(s[1..], x, key)
  {
  }

  /** An element larger than the head goes in front of it. */
  lemma InsertInFront<T>(s: seq<T>, x: T, key: T -> real)
    requires |s| == 0 || key(s[0]) < key(x)
    ensures Insert(s, x, key) == [x] + s
  {
  }

  /** The step of `InsertWithKey` where `x` goes behind the head. */
  lemma InsertWithKeyBehind<T>(s: seq<T>, x: T, key: T -> real, k: real)
    requires |s| > 0 && key(s[0]) >= key(x)
    requires WithKey(Insert(s[1..], x, key), key, k) == WithKey(s[1..], key, k) + (if key(x) == k then [x] else [])
    ensures WithKey(Insert(s, x, key), key, k) == WithKey(s, key, k) + (if key(x) == k then [x] else [])
  {
    var rest := Insert(s[1..], x, key);
    var head := if key(s[0]) == k then [s[0]] else [];
    var tail := if key(x) == k then [x] else [];
    var mid := WithKey(s[1..], key, k);
    InsertBehind(s, x, key);
    WithKeyCons(s[0], rest, key, k);
    assert WithKey(s, key, k) == head + mid;
    assert head + (mid + tail) == (head + mid) + tail;
  }

  /** The step of `InsertWithKey` where `x` goes in front. */
  lemma InsertWithKeyInFront<T>(s: seq<T>, x: T, key: T -> real, k: real)
    requires NonIncreasing(s, key) && (|s| == 0 || key(s[0]) < key(x))
    ensures WithKey(Insert(s, x, key), key, k) == WithKey(s, key, k) + (if key(x) == k then [x] else [])
  {
    InsertInFront(s, x, key);
    WithKeyCons(x, s, key, k);
    var w := WithKey(s, key, k);
    if key(x) == k {
      assert forall i :: 0 <= i < |s| ==> key(s[i]) <= key(s[0]);
      WithKeyAbsent(s, key, k);
      assert [x] + w == w + [x];
    } else {
      assert [] + w == w + [];
    }
  }

  /** Stable descending sort: the result is ordered by decreasing key, is a
      permutation of the input, and lists equal-key entries in input order. */
  function SortDesc<T>(s: seq<T>, key: T -> real): (r: seq<T>)
    ensures |r| == |s|
    ensures NonIncreasing(r, key)
    ensures multiset(r) == multiset(s)
    ensures forall k :: WithKey(r, key, k) == WithKey(s, key, k)
  {
    if |s| == 0 then []
    else
      var front := s[..|s| - 1];
      var x := s[|s| - 1];
      assert s == front + [x];
      var sorted := SortDesc(front, key);
      var r := Insert(sorted, x, key);
      InsertSorted(sorted, x, key);
      InsertMultiset(sorted, x, key);
      forall k ensures WithKey(r, key, k) == WithKey(s, key, k) {
        WithKeyAppend(front, [x], key, k);
        InsertWithKey(sorted, x, key, k);
      }
      assert |r| == |multiset(r)| == |s|;
      r
  }

  ghost predicate UniqueBy<T, K>(s: seq<T>, id: T -> K) {
    forall i, j :: 0 <= i < j < |s| ==> id(s[i]) != id(s[j])
  }

  /** Putting an entry with a fresh identity in front keeps identities unique. */
  lemma ConsUnique<T, K>(h: T, rest: seq<T>, id: T -> K)
    requires UniqueBy(rest, id)
    requires forall y :: y in rest ==> id(y) != id(h)
    ensures UniqueBy([h] + rest, id)
  {
    var r := [h] + rest;
    forall i, j | 0 <= i < j < |r| ensures id(r[i]) != id(r[j]) {
      assert r[j] == rest[j - 1] && r[j] in rest;
      if i > 0 {
        assert r[i] == rest[i - 1];
      }
    }
  }

  /** Inserting an element with a fresh id keeps ids unique. */
  lemma {:induction false} InsertKeepsUnique<T, K>(s: seq<T>, x: T, key: T -> real, id: T -> K)
    requires UniqueBy(s, id)
    requires forall y :: y in s ==> id(y) != id(x)
    ensures UniqueBy(Insert(s, x, key), id)
  {
    if |s| > 0 && key(s[0]) >= key(x) {
      var rest := Insert(s[1..], x, key);
      assert UniqueBy(s[1..], id) by {
        assert forall i :: 0 <= i < |s| - 1 ==> s[1..][i] == s[i + 1];
      }
      InsertKeepsUnique(s[1..], x, key, id);
      InsertMultiset(s[1..], x, key);
      forall y | y in rest ensures id(y) != id(s[0]) {
        assert y in multiset(rest);
        if y != x {
          assert y in s[1..];
        }
      }
      ConsUnique(s[0], rest, id);
    } else if |s| > 0 {
      ConsUnique(x, s, id);
    }
  }

  /** Sorting never makes two entries share an identity. */
  lemma {:induction false} SortKeepsUnique<T, K>(s: seq<T>, key: T -> real, id: T -> K)
    requires UniqueBy(s, id)
    ensures UniqueBy(SortDesc(s, key), id)
  {
    if |s| > 0 {
      var front := s[..|s| - 1];
      var x := s[|s| - 1];
      SortKeepsUnique(front, key, id);
      var sorted := SortDesc(front, key);
      forall y | y in sorted ensures id(y) != id(x) {
        assert y in multiset(sorted);
        assert y in front;
      }
      InsertKeepsUnique(sorted, x, key, id);
    }
  }
}
