/**
 * Python's `sorted(xs, key=key, reverse=True)`: a stable sort into
 * non-increasing key order. Both the tagger (by score) and the 0.1 script
 * (by word length) sort this way.
 */
module Sorting {

  /** Non-increasing by key. */
  predicate SortedDesc<T>(s: seq<T>, key: T -> int) {
    forall j, k :: 0 <= j < k < |s| ==> key(s[j]) >= key(s[k])
  }

  /** `P` holds of every pair of elements at different positions. */
  predicate Pairwise<T>(s: seq<T>, P: (T, T) -> bool) {
    forall j, k :: 0 <= j < |s| && 0 <= k < |s| && j != k ==> P(s[j], s[k])
  }

  /** Appending an element that relates both ways to every earlier one keeps a pairwise property. */
  lemma PairwiseAppend<T>(s: seq<T>, x: T, P: (T, T) -> bool)
    requires Pairwise(s, P)
    requires forall k :: 0 <= k < |s| ==> P(s[k], x) && P(x, s[k])
    ensures Pairwise(s + [x], P)
  {
    var r := s + [x];
    forall j, k | 0 <= j < |r| && 0 <= k < |r| && j != k
      ensures P(r[j], r[k])
    {
      if j < |s| && k < |s| {
        assert r[j] == s[j] && r[k] == s[k];
      }
    }
  }

  /** Puts `x` in front of the first element whose key is not greater than its own. */
  function Insert<T>(x: T, s: seq<T>, key: T -> int): (r: seq<T>)
    requires SortedDesc(s, key)
    ensures SortedDesc(r, key)
    ensures multiset(r) == multiset(s) + multiset{x}
  {
    if |s| == 0 || key(x) >= key(s[0]) then [x] + s
    else
      var t := Insert(x, s[1..], key);
      InsertBehindHead(x, s, t, key);
      [s[0]] + t
  }

  /** Keeping the head of `s` in front of `x` inserted into the tail keeps the order and the elements. */
  lemma InsertBehindHead<T>(x: T, s: seq<T>, t: seq<T>, key: T -> int)
    requires |s| > 0 && key(x) < key(s[0]) && SortedDesc(s, key)
    requires SortedDesc(t, key) && multiset(t) == multiset(s[1..]) + multiset{x}
    ensures SortedDesc([s[0]] + t, key)
    ensures multiset([s[0]] + t) == multiset(s) + multiset{x}
  {
    assert s == [s[0]] + s[1..];
    HeadBounds(s, key);
    BoundsAfterInsert(t, s[1..], x, key, key(s[0]));
  }

  /** In a non-increasing sequence no later element has a greater key than the head. */
  lemma HeadBounds<T>(s: seq<T>, key: T -> int)
    requires |s| > 0 && SortedDesc(s, key)
    ensures forall y :: y in s[1..] ==> key(y) <= key(s[0])
  {
    forall y | y in s[1..] ensures key(y) <= key(s[0]) {
      var i :| 0 <= i < |s[1..]| && s[1..][i] == y;
      assert s[i + 1] == y;
    }
  }

  /** A bound on the keys of `s` and of `x` bounds the keys of any arrangement of them. */
  lemma BoundsAfterInsert<T>(t: seq<T>, s: seq<T>, x: T, key: T -> int, b: int)
    requires multiset(t) == multiset(s) + multiset{x}
    requires key(x) <= b && forall y :: y in s ==> key(y) <= b
    ensures forall k :: 0 <= k < |t| ==> b >= key(t[k])
  {
    forall k | 0 <= k < |t| ensures b >= key(t[k]) {
      FromInsert(t[k], t, s, x);
    }
  }

  /** An element of a sequence holding the elements of `s` and `x` is `x` or an element of `s`. */
  lemma FromInsert<T>(y: T, t: seq<T>, s: seq<T>, x: T)
    requires y in t && multiset(t) == multiset(s) + multiset{x}
    ensures y == x || y in s
  {
    assert y in multiset(t);
  }

  /** A permutation of `xs` in non-increasing key order; `SortStable` shows that ties keep their order. */
  function SortDesc<T>(xs: seq<T>, key: T -> int): (r: seq<T>)
    ensures SortedDesc(r, key)
    ensures multiset(r) == multiset(xs)
    ensures |r| == |xs|
  {
    if |xs| == 0 then []
    else
      assert xs == [xs[0]] + xs[1..];
      Insert(xs[0], SortDesc(xs[1..], key), key)
  }

  /** The elements of `s` whose key is `v`, in their order in `s`. */
  function WithKey<T>(s: seq<T>, key: T -> int, v: int): seq<T>
  {
    if |s| == 0 then [] else (if key(s[0]) == v then [s[0]] else []) + WithKey(s[1..], key, v)
  }

  /** `x` lands in front of every element with its own key. */
  lemma {:induction false} InsertWithKey<T>(x: T, s: seq<T>, key: T -> int, v: int)
    requires SortedDesc(s, key)
    ensures WithKey(Insert(x, s, key), key, v) == (if key(x) == v then [x] else []) + WithKey(s, key, v)
  {
    var hx: seq<T> := if key(x) == v then [x] else [];
    if |s| == 0 || key(x) >= key(s[0]) {
      var r := [x] + s;
      assert r[0] == x && r[1..] == s;
    } else {
      var t := Insert(x, s[1..], key);
      var h0: seq<T> := if key(s[0]) == v then [s[0]] else [];
      InsertWithKey(x, s[1..], key, v);
      var r := [s[0]] + t;
      assert r[0] == s[0] && r[1..] == t;
      assert h0 == [] || hx == [];
      Swap(h0, hx, WithKey(s[1..], key, v));
    }
  }

  lemma Swap<T>(p: seq<T>, q: seq<T>, w: seq<T>)
    requires p == [] || q == []
    ensures p + (q + w) == q + (p + w)
  {
  }

  /** Sorting is stable: the elements with any one key keep their original order. */
  lemma {:induction false} SortStable<T>(xs: seq<T>, key: T -> int, v: int)
    ensures WithKey(SortDesc(xs, key), key, v) == WithKey(xs, key, v)
  {
    if |xs| > 0 {
      SortStable(xs[1..], key, v);
      InsertWithKey(xs[0], SortDesc(xs[1..], key), key, v);
    }
  }

  lemma {:induction false} InsertPairwise<T>(x: T, s: seq<T>, key: T -> int, P: (T, T) -> bool)
    requires SortedDesc(s, key)
    requires Pairwise(s, P)
    requires forall y :: y in s ==> P(x, y) && P(y, x)
    ensures Pairwise(Insert(x, s, key), P)
  {
    if |s| == 0 || key(x) >= key(s[0]) {
      PairwiseCons(x, s, P);
    } else {
      var t := Insert(x, s[1..], key);
      InsertPairwise(x, s[1..], key, P);
      forall y | y in t ensures P(s[0], y) && P(y, s[0]) {
        FromInsert(y, t, s[1..], x);
        if y != x {
          var i :| 0 <= i < |s[1..]| && s[1..][i] == y;
          assert s[1 + i] == y;
        }
      }
      PairwiseCons(s[0], t, P);
    }
  }

  /** Putting in front an element that relates both ways to every element keeps a pairwise property. */
  lemma PairwiseCons<T>(y: T, s: seq<T>, P: (T, T) -> bool)
    requires Pairwise(s, P)
    requires forall z :: z in s ==> P(y, z) && P(z, y)
    ensures Pairwise([y] + s, P)
  {
    var r := [y] + s;
    forall j, k | 0 <= j < |r| && 0 <= k < |r| && j != k
      ensures P(r[j], r[k])
    {
      if j > 0 && k > 0 {
        assert r[j] == s[j - 1] && r[k] == s[k - 1];
      } else if j == 0 {
        assert r[k] in s;
      } else {
        assert r[j] in s;
      }
    }
  }

  /** Sorting keeps any property that held of every pair of distinct positions. */
  lemma {:induction false} SortPairwise<T>(xs: seq<T>, key: T -> int, P: (T, T) -> bool)
    requires Pairwise(xs, P)
    ensures Pairwise(SortDesc(xs, key), P)
  {
    if |xs| > 0 {
      var rest := xs[1..];
      assert Pairwise(rest, P) by {
        forall j, k | 0 <= j < |rest| && 0 <= k < |rest| && j != k
          ensures P(rest[j], rest[k])
        {
          assert rest[j] == xs[j + 1] && rest[k] == xs[k + 1];
        }
      }
      SortPairwise(rest, key, P);
      var sr := SortDesc(rest, key);
      forall y | y in sr
        ensures P(xs[0], y) && P(y, xs[0])
      {
        assert y in multiset(rest);
        var i :| 0 <= i < |rest| && rest[i] == y;
        assert xs[i + 1] == y;
      }
      InsertPairwise(xs[0], sr, key, P);
    }
  }
}
