/**
 * The handful of Python string operations the bot relies on, written over
 * `seq<char>`: ASCII character classes, lower-casing, `str.split()` on
 * whitespace, `str.split(sep)`, `sep.join(...)`, substring search and the
 * strip family. Each is defined once here and shared by every module.
 */
module Text {

  // ---------------------------------------------------------------------
  // Character classes (ASCII)
  // ---------------------------------------------------------------------

  predicate IsUpper(c: char) { 'A' <= c <= 'Z' }

  /** `c.islower()` for a single character. */
  predicate IsLowerLetter(c: char) { 'a' <= c <= 'z' }

  predicate IsDigit(c: char) { '0' <= c <= '9' }

  predicate IsAlnum(c: char) { IsUpper(c) || IsLowerLetter(c) || IsDigit(c) }

  /** The characters `str.split()` and `str.strip()` treat as whitespace. */
  predicate IsSpace(c: char) {
    c == ' ' || c == '\t' || c == '\n' || c == '\r' || c == '\U{000B}' || c == '\U{000C}'
  }

  /** A character of Python's `string.punctuation`: the printable ASCII characters that are neither letters, digits nor space. */
  predicate IsPunct(c: char) {
    ('!' <= c <= '/') || (':' <= c <= '@') || ('[' <= c <= '`') || ('{' <= c <= '~')
  }

  function LowerChar(c: char): (r: char)
    ensures IsUpper(c) ==> IsLowerLetter(r)
    ensures !IsUpper(c) ==> r == c
  {
    if IsUpper(c) then (c as int + 32) as char else c
  }

  /** `s.lower()`: same length, every character lower-cased in place. */
  function Lower(s: string): (r: string)
    ensures |r| == |s|
    ensures forall k :: 0 <= k < |s| ==> r[k] == LowerChar(s[k])
  {
    if |s| == 0 then [] else [LowerChar(s[0])] + Lower(s[1..])
  }

  lemma LowerAppend(a: string, b: string)
    ensures Lower(a + b) == Lower(a) + Lower(b)
  {
    assert forall k :: 0 <= k < |a + b| ==> Lower(a + b)[k] == (Lower(a) + Lower(b))[k];
  }

  /** `s.isdigit()`: non-empty and made of digits only. */
  predicate IsDigits(s: string) {
    |s| > 0 && forall k :: 0 <= k < |s| ==> IsDigit(s[k])
  }

  // ---------------------------------------------------------------------
  // Filtering and replacing characters
  // ---------------------------------------------------------------------

  /** `"".join(c for c in s if keep(c))`. */
  function Keep(s: string, keep: char -> bool): (r: string)
    ensures |r| <= |s|
    ensures forall k :: 0 <= k < |r| ==> keep(r[k])
    ensures forall c :: c in r <==> c in s && keep(c)
  {
    if |s| == 0 then []
    else if keep(s[0]) then [s[0]] + Keep(s[1..], keep)
    else Keep(s[1..], keep)
  }

  lemma KeepAppend(a: string, b: string, keep: char -> bool)
    ensures Keep(a + b, keep) == Keep(a, keep) + Keep(b, keep)
    decreases |a|
  {
    if |a| > 0 {
      assert (a + b)[1..] == a[1..] + b;
      KeepAppend(a[1..], b, keep);
    } else {
      assert a + b == b;
    }
  }

  lemma KeepAll(s: string, keep: char -> bool)
    requires forall k :: 0 <= k < |s| ==> keep(s[k])
    ensures Keep(s, keep) == s
  {
    if |s| > 0 {
      KeepAll(s[1..], keep);
    }
  }

  /** `s.replace(c, "")`. */
  function Remove(s: string, c: char): (r: string)
    ensures c !in r
    ensures forall d :: d != c ==> (d in r <==> d in s)
  {
    Keep(s, x => x != c)
  }

  /** `s.replace(a, b)` for one-character `a` and `b`. */
  function Replace(s: string, a: char, b: char): (r: string)
    ensures |r| == |s|
    ensures forall k :: 0 <= k < |s| ==> r[k] == (if s[k] == a then b else s[k])
  {
    if |s| == 0 then [] else [if s[0] == a then b else s[0]] + Replace(s[1..], a, b)
  }

  lemma ReplaceAbsent(s: string, a: char, b: char)
    requires a !in s
    ensures Replace(s, a, b) == s
  {
  }

  lemma ReplaceAppend(a: string, b: string, x: char, y: char)
    ensures Replace(a + b, x, y) == Replace(a, x, y) + Replace(b, x, y)
  {
    assert forall k :: 0 <= k < |a + b| ==>
      Replace(a + b, x, y)[k] == (Replace(a, x, y) + Replace(b, x, y))[k];
  }

  // ---------------------------------------------------------------------
  // Prefixes, suffixes and substrings
  // ---------------------------------------------------------------------

  predicate StartsWith(s: string, p: string) {
    |p| <= |s| && s[..|p|] == p
  }

  predicate EndsWith(s: string, p: string) {
    |p| <= |s| && s[|s| - |p|..] == p
  }

  /** Python's `sub in s`. */
  predicate Contains(s: string, sub: string)
    decreases |s|
  {
    StartsWith(s, sub) || (|s| > 0 && Contains(s[1..], sub))
  }

  lemma ContainsPrefix(s: string, p: string, sub: string)
    requires StartsWith(s, p) && Contains(p, sub)
    ensures Contains(s, sub)
    decreases |p|
  {
    if !StartsWith(p, sub) {
      ContainsPrefix(s[1..], p[1..], sub);
    }
  }

  /** The index of the first `c` in `s`, or `|s|` when there is none (`s.find(c)`, with `|s|` for -1). */
  function IndexOf(s: string, c: char): (n: nat)
    ensures n <= |s|
    ensures forall k :: 0 <= k < n ==> s[k] != c
    ensures n < |s| ==> s[n] == c
    ensures n == |s| <==> c !in s
  {
    if |s| == 0 then 0 else if s[0] == c then 0 else 1 + IndexOf(s[1..], c)
  }

  /** The first `c` of `p + t`, when `p` holds none, is the first of `t`, shifted. */
  lemma IndexOfAppend(p: string, t: string, c: char)
    requires c !in p
    ensures IndexOf(p + t, c) == |p| + IndexOf(t, c)
    decreases |p|
  {
    if |p| > 0 {
      assert (p + t)[1..] == p[1..] + t;
      IndexOfAppend(p[1..], t, c);
    } else {
      assert p + t == t;
    }
  }

  /** Python's slice `s[n:]`, which clamps an index past the end. */
  function Drop(s: string, n: nat): (r: string)
    ensures n <= |s| ==> r == s[n..]
    ensures n > |s| ==> r == []
  {
    if n <= |s| then s[n..] else []
  }

  // ---------------------------------------------------------------------
  // Splitting and joining
  // ---------------------------------------------------------------------

  predicate NoSpace(w: string) {
    forall k :: 0 <= k < |w| ==> !IsSpace(w[k])
  }

  /** The length of the leading run of non-whitespace characters. */
  function TokenLen(s: string): (n: nat)
    ensures n <= |s|
    ensures forall k :: 0 <= k < n ==> !IsSpace(s[k])
    ensures n < |s| ==> IsSpace(s[n])
    ensures |s| > 0 && !IsSpace(s[0]) ==> n >= 1
  {
    if |s| == 0 || IsSpace(s[0]) then 0 else 1 + TokenLen(s[1..])
  }

  /** `s.split()`: maximal runs of non-whitespace characters, in order. */
  function Words(s: string): (r: seq<string>)
    ensures forall k :: 0 <= k < |r| ==> |r[k]| > 0 && NoSpace(r[k])
    decreases |s|
  {
    if |s| == 0 then []
    else if IsSpace(s[0]) then Words(s[1..])
    else
      var n := TokenLen(s);
      [s[..n]] + Words(s[n..])
  }

  /** A text of whitespace only has no words. */
  lemma {:induction false} WordsOfSpaces(s: string)
    requires forall k :: 0 <= k < |s| ==> IsSpace(s[k])
    ensures Words(s) == []
    decreases |s|
  {
    if |s| > 0 {
      WordsOfSpaces(s[1..]);
    }
  }

  /** Every character of every word is a character of the text. */
  lemma {:induction false} WordsChars(s: string, P: char -> bool)
    requires forall k :: 0 <= k < |s| ==> P(s[k]) || IsSpace(s[k])
    ensures forall w, k :: w in Words(s) && 0 <= k < |w| ==> P(w[k])
    decreases |s|
  {
    if |s| == 0 {
    } else if IsSpace(s[0]) {
      WordsChars(s[1..], P);
    } else {
      var n := TokenLen(s);
      WordsChars(s[n..], P);
      assert Words(s) == [s[..n]] + Words(s[n..]);
    }
  }

  lemma TokenLenBeforeSpace(x: string, y: string)
    ensures TokenLen(x + [' '] + y) == TokenLen(x)
    decreases |x|
  {
    if |x| > 0 && !IsSpace(x[0]) {
      assert (x + [' '] + y)[1..] == x[1..] + [' '] + y;
      TokenLenBeforeSpace(x[1..], y);
    }
  }

  /** A single space splits a text into the words of its two halves. */
  lemma {:induction false} WordsAroundSpace(x: string, y: string)
    ensures Words(x + [' '] + y) == Words(x) + Words(y)
    decreases |x|
  {
    var s := x + [' '] + y;
    if |x| == 0 {
      assert s[1..] == y;
    } else if IsSpace(x[0]) {
      assert s[1..] == x[1..] + [' '] + y;
      WordsAroundSpace(x[1..], y);
    } else {
      var n := TokenLen(x);
      TokenLenBeforeSpace(x, y);
      assert s[..n] == x[..n];
      assert s[n..] == x[n..] + [' '] + y;
      WordsAroundSpace(x[n..], y);
    }
  }

  lemma WordsOfWord(w: string)
    requires |w| > 0 && NoSpace(w)
    ensures Words(w) == [w]
  {
    assert TokenLen(w) == |w|;
    assert w[..|w|] == w;
  }

  /** The total length of the items. */
  function Lengths(ws: seq<string>): nat {
    if |ws| == 0 then 0 else |ws[0]| + Lengths(ws[1..])
  }

  /** `sep.join(ws)`: the items with one separator between each two. */
  function Join(ws: seq<string>, sep: string): (r: string)
    ensures |ws| == 0 ==> r == ""
    ensures |ws| > 0 ==> |r| == Lengths(ws) + (|ws| - 1) * |sep|
  {
    if |ws| == 0 then "" else if |ws| == 1 then ws[0] else ws[0] + sep + Join(ws[1..], sep)
  }

  /** Splitting on whitespace undoes joining with one space, as long as no word is empty or holds a space. */
  lemma {:induction false} WordsOfJoin(ws: seq<string>)
    requires forall k :: 0 <= k < |ws| ==> |ws[k]| > 0 && NoSpace(ws[k])
    ensures Words(Join(ws, " ")) == ws
  {
    if |ws| == 0 {
    } else if |ws| == 1 {
      WordsOfWord(ws[0]);
    } else {
      WordsOfJoin(ws[1..]);
      WordsOfWord(ws[0]);
      WordsAroundSpace(ws[0], Join(ws[1..], " "));
    }
  }

  /** `s.split(c)` for a one-character separator: always at least one item, none holding `c`. */
  function SplitOn(s: string, c: char): (r: seq<string>)
    ensures |r| >= 1
    ensures forall k :: 0 <= k < |r| ==> c !in r[k]
    decreases |s|
  {
    var n := IndexOf(s, c);
    if n == |s| then [s] else [s[..n]] + SplitOn(s[n + 1..], c)
  }

  /** Splitting undoes joining, for a non-empty list whose items do not hold the separator. */
  lemma {:induction false} SplitOfJoin(xs: seq<string>, c: char)
    requires |xs| >= 1
    requires forall k :: 0 <= k < |xs| ==> c !in xs[k]
    ensures SplitOn(Join(xs, [c]), c) == xs
  {
    if |xs| == 1 {
    } else {
      var s := Join(xs, [c]);
      assert s == xs[0] + [c] + Join(xs[1..], [c]);
      assert IndexOf(s, c) == |xs[0]| by {
        assert forall k :: 0 <= k < |xs[0]| ==> s[k] == xs[0][k];
        assert s[|xs[0]|] == c;
      }
      assert s[..|xs[0]|] == xs[0];
      assert s[|xs[0]| + 1..] == Join(xs[1..], [c]);
      SplitOfJoin(xs[1..], c);
    }
  }

  /** Splitting at a separator splits the parts on either side of it independently. */
  lemma {:induction false} SplitOnConcat(a: string, b: string, c: char)
    ensures SplitOn(a + [c] + b, c) == SplitOn(a, c) + SplitOn(b, c)
    decreases |a|
  {
    var n := IndexOf(a, c);
    if n == |a| {
      SplitAtFirst(a, b, c);
    } else {
      SplitOnConcat(a[n + 1..], b, c);
      SplitBeforeFirst(a, b, c, n);
    }
  }

  /** The step of `SplitOnConcat` when `a` holds no separator. */
  lemma SplitAtFirst(a: string, b: string, c: char)
    requires c !in a
    ensures SplitOn(a + [c] + b, c) == SplitOn(a, c) + SplitOn(b, c)
  {
    var s := a + [c] + b;
    IndexOfAppend(a, [c] + b, c);
    assert s == a + ([c] + b);
    assert s[..|a|] == a && s[|a| + 1..] == b;
  }

  /** The step of `SplitOnConcat` when the first separator of `a` is at `n`. */
  lemma SplitBeforeFirst(a: string, b: string, c: char, n: nat)
    requires n < |a| && n == IndexOf(a, c)
    requires SplitOn(a[n + 1..] + [c] + b, c) == SplitOn(a[n + 1..], c) + SplitOn(b, c)
    ensures SplitOn(a + [c] + b, c) == SplitOn(a, c) + SplitOn(b, c)
  {
    var m := [c] + b;
    ConcatAssoc(a, [c], b);
    ConcatAssoc(a[n + 1..], [c], b);
    IndexOfFound(a, m, c);
    SlicesOfConcat(a, m, n);
    SplitOnUnfold(a + m, c, n);
    SplitOnUnfold(a, c, n);
    ConcatAssoc([a[..n]], SplitOn(a[n + 1..], c), SplitOn(b, c));
  }

  /** A `c` found in `p` is the first `c` of `p + t`. */
  lemma IndexOfFound(p: string, t: string, c: char)
    requires c in p
    ensures IndexOf(p + t, c) == IndexOf(p, c)
    decreases |p|
  {
    if p[0] != c {
      assert (p + t)[1..] == p[1..] + t;
      IndexOfFound(p[1..], t, c);
    }
  }

  lemma SplitOnUnfold(s: string, c: char, n: nat)
    requires n < |s| && n == IndexOf(s, c)
    ensures SplitOn(s, c) == [s[..n]] + SplitOn(s[n + 1..], c)
  {
    assert SplitOn(s, c) == [s[..IndexOf(s, c)]] + SplitOn(s[IndexOf(s, c) + 1..], c);
  }

  lemma ConcatAssoc<T>(p: seq<T>, q: seq<T>, r: seq<T>)
    ensures p + (q + r) == (p + q) + r
  {
  }

  lemma SlicesOfConcat<T>(a: seq<T>, m: seq<T>, n: nat)
    requires n < |a|
    ensures (a + m)[..n] == a[..n] && (a + m)[n + 1..] == a[n + 1..] + m
  {
  }

  // ---------------------------------------------------------------------
  // Stripping and padding
  // ---------------------------------------------------------------------

  /** `s.lstrip(c)` for one character. */
  function LStrip(s: string, c: char): (r: string)
    ensures |r| <= |s| && r == s[|s| - |r|..]
    ensures |r| > 0 ==> r[0] != c
    ensures forall k :: 0 <= k < |s| - |r| ==> s[k] == c
  {
    if |s| > 0 && s[0] == c then LStrip(s[1..], c) else s
  }

  /** `r` is the slice of `s` starting at `i`, and everything of `s` around that slice is whitespace. */
  predicate TrimmedAt(s: string, r: string, i: int) {
    && 0 <= i && i + |r| <= |s| && s[i..i + |r|] == r
    && (forall k :: 0 <= k < i ==> IsSpace(s[k]))
    && (forall k :: i + |r| <= k < |s| ==> IsSpace(s[k]))
  }

  /** `s.strip()`: `s` without its leading and trailing whitespace. */
  function Strip(s: string): (r: string)
    ensures |r| > 0 ==> !IsSpace(r[0]) && !IsSpace(r[|r| - 1])
    ensures exists i :: TrimmedAt(s, r, i)
    decreases |s|
  {
    if |s| > 0 && IsSpace(s[0]) then
      var r := Strip(s[1..]);
      var i :| TrimmedAt(s[1..], r, i);
      TrimmedAfterSpace(s, r, i);
      r
    else if |s| > 0 && IsSpace(s[|s| - 1]) then
      var r := Strip(s[..|s| - 1]);
      var i :| TrimmedAt(s[..|s| - 1], r, i);
      TrimmedBeforeSpace(s, r, i);
      r
    else
      assert TrimmedAt(s, s, 0);
      s
  }

  lemma TrimmedAfterSpace(s: string, r: string, i: int)
    requires |s| > 0 && IsSpace(s[0]) && TrimmedAt(s[1..], r, i)
    ensures TrimmedAt(s, r, i + 1)
  {
    assert s[i + 1..i + 1 + |r|] == s[1..][i..i + |r|];
  }

  lemma TrimmedBeforeSpace(s: string, r: string, i: int)
    requires |s| > 0 && IsSpace(s[|s| - 1]) && TrimmedAt(s[..|s| - 1], r, i)
    ensures TrimmedAt(s, r, i)
  {
    assert s[i..i + |r|] == s[..|s| - 1][i..i + |r|];
  }

  /** Whitespace on either side of a text that neither starts nor ends with whitespace is exactly what `strip` removes. */
  lemma StripPadded(a: string, w: string, b: string)
    requires forall k :: 0 <= k < |a| ==> IsSpace(a[k])
    requires forall k :: 0 <= k < |b| ==> IsSpace(b[k])
    requires |w| > 0 ==> !IsSpace(w[0]) && !IsSpace(w[|w| - 1])
    ensures Strip(a + w + b) == w
  {
    var s := a + w + b;
    var r := Strip(s);
    var i :| TrimmedAt(s, r, i);
    if |w| > 0 {
      assert s[|a|] == w[0] && s[|a| + |w| - 1] == w[|w| - 1];
      if |r| > 0 {
        assert s[i] == r[0] && s[i + |r| - 1] == r[|r| - 1];
        assert i == |a|;
        assert i + |r| == |a| + |w|;
        assert s[|a|..|a| + |w|] == w;
      }
    }
  }

  /** `s.ljust(width, fill)`. */
  function LJust(s: string, width: int, fill: char): (r: string)
    ensures |r| == if width > |s| then width else |s|
    ensures StartsWith(r, s)
    ensures forall k :: |s| <= k < |r| ==> r[k] == fill
  {
    if width > |s| then s + seq(width - |s|, _ => fill) else s
  }
}
