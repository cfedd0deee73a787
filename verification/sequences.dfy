/** Sequence helpers shared by the feed and the bot: reversal and the subsequence order. */
module Sequences {

  /** `reversed(s)`. */
  function Reverse<T>(s: seq<T>): (r: seq<T>)
    ensures |r| == |s|
    ensures forall k :: 0 <= k < |s| ==> r[k] == s[|s| - 1 - k]
  {
    if |s| == 0 then [] else [s[|s| - 1]] + Reverse(s[..|s| - 1])
  }

  /** `a` is `b` with some elements left out, the rest in their original order. */
  predicate Subseq<T(==)>(a: seq<T>, b: seq<T>)
    decreases |b|
  {
    |a| == 0 || (|b| > 0 && ((a[0] == b[0] && Subseq(a[1..], b[1..])) || Subseq(a, b[1..])))
  }

  lemma {:induction false} SubseqElements<T>(a: seq<T>, b: seq<T>)
    requires Subseq(a, b)
    ensures forall x :: x in a ==> x in b
    decreases |b|
  {
    if |a| > 0 {
      if a[0] == b[0] && Subseq(a[1..], b[1..]) {
        SubseqElements(a[1..], b[1..]);
        assert forall x :: x in a ==> x == a[0] || x in a[1..];
      } else {
        SubseqElements(a, b[1..]);
      }
    }
  }

  /** The elements of `xs` whose flag in `sel` is set, in order. */
  function Picked<T>(xs: seq<T>, sel: seq<bool>): seq<T>
    requires |sel| == |xs|
  {
    if |xs| == 0 then [] else (if sel[0] then [xs[0]] else []) + Picked(xs[1..], sel[1..])
  }

  /** The picked elements are a subsequence. */
  lemma {:induction false} PickedSubseq<T>(xs: seq<T>, sel: seq<bool>)
    requires |sel| == |xs|
    ensures Subseq(Picked(xs, sel), xs)
  {
    if |xs| > 0 {
      PickedSubseq(xs[1..], sel[1..]);
      var rest := Picked(xs[1..], sel[1..]);
      if sel[0] {
        assert Picked(xs, sel) == [xs[0]] + rest;
        assert ([xs[0]] + rest)[1..] == rest;
      } else {
        assert Picked(xs, sel) == rest;
      }
    }
  }
}
