/**
 * Hashtag extraction (`Tagger` in babbler/tagging.py). A title is split
 * into words; every word that is neither numeric nor a dictionary word
 * proposes up to four candidate tags built from itself and its
 * neighbours; the best strictly positive scoring candidate is kept unless
 * one of the word's candidates was already chosen; the chosen tags are
 * sorted by score. The scorer (a Twitter search in the bot) is an
 * arbitrary function supplied by the caller.
 */
module Tagging {
  import opened Wrappers
  import opened Text
  import Sorting

  /** The tagger's configuration: the scorer, the minimum tag length and the two word lists. */
  datatype Tagger = Tagger(
    scorer: string -> int,
    minLength: int,
    dictionary: set<string>,
    stopwords: set<string>)

  /** A chosen tag with the score it won with. */
  datatype Scored = Scored(tag: string, score: int)

  function ScoreOf(s: Scored): int { s.score }

  // ---------------------------------------------------------------------
  // Tokenising
  // ---------------------------------------------------------------------

  predicate TokenChar(c: char) { IsAlnum(c) || c == '\'' }

  /** The characters kept before splitting: token characters and spaces. */
  predicate KeptChar(c: char) { TokenChar(c) || c == ' ' }

  /** The text with dashes and slashes turned into spaces and everything but token characters and spaces dropped. */
  function Cleaned(text: string): string {
    Keep(Replace(Replace(text, '-', ' '), '/', ' '), KeptChar)
  }

  /**
   * Dashes and slashes become spaces, everything but token characters and
   * spaces is dropped, then split: a run of token characters is one token.
   */
  function Tokenize(text: string): (words: seq<string>)
    ensures forall k :: 0 <= k < |words| ==> |words[k]| > 0
    ensures forall w, k :: w in words && 0 <= k < |w| ==> TokenChar(w[k])
    ensures |text| > 0 && (forall k :: 0 <= k < |text| ==> TokenChar(text[k])) ==> words == [text]
    ensures (forall k :: 0 <= k < |text| ==> !TokenChar(text[k])) ==> words == []
  {
    var kept := Cleaned(text);
    assert (forall k :: 0 <= k < |text| ==> !TokenChar(text[k])) ==> Words(kept) == [] by {
      if forall k :: 0 <= k < |text| ==> !TokenChar(text[k]) {
        CleanedSpaces(text);
        WordsOfSpaces(kept);
      }
    }
    WordsChars(kept, TokenChar);
    assert |text| > 0 && (forall k :: 0 <= k < |text| ==> TokenChar(text[k])) ==> Words(kept) == [text] by {
      if |text| > 0 && (forall k :: 0 <= k < |text| ==> TokenChar(text[k])) {
        RunIsOneToken(text);
      }
    }
    Words(kept)
  }

  /** A text without token characters cleans to spaces only. */
  lemma CleanedSpaces(text: string)
    requires forall k :: 0 <= k < |text| ==> !TokenChar(text[k])
    ensures forall k :: 0 <= k < |Cleaned(text)| ==> Cleaned(text)[k] == ' '
  {
    var r := Replace(Replace(text, '-', ' '), '/', ' ');
    assert forall k :: 0 <= k < |r| ==> !TokenChar(r[k]) by {
      forall k | 0 <= k < |r| ensures !TokenChar(r[k]) {
        assert r[k] == ' ' || r[k] == text[k];
      }
    }
    var c := Cleaned(text);
    forall k | 0 <= k < |c| ensures c[k] == ' ' {
      assert c[k] in c;
      assert c[k] in r && KeptChar(c[k]);
    }
  }

  /** A text of token characters only survives cleaning unchanged and splits into itself. */
  lemma RunIsOneToken(text: string)
    requires |text| > 0 && forall k :: 0 <= k < |text| ==> TokenChar(text[k])
    ensures Words(Cleaned(text)) == [text]
  {
    assert NoSpace(text) by {
      forall k | 0 <= k < |text| ensures !IsSpace(text[k]) {
        assert TokenChar(text[k]);
      }
    }
    WordsOfWord(text);
    CleanedRun(text);
  }

  lemma CleanedRun(text: string)
    requires forall k :: 0 <= k < |text| ==> TokenChar(text[k])
    ensures Cleaned(text) == text
  {
    assert '-' !in text && '/' !in text by {
      forall k | 0 <= k < |text| ensures text[k] != '-' && text[k] != '/' {
        assert TokenChar(text[k]);
      }
    }
    ReplaceAbsent(text, '-', ' ');
    ReplaceAbsent(text, '/', ' ');
    KeepAll(text, KeptChar);
  }

  /** The cleaned text of a concatenation is the concatenation of the cleaned parts. */
  lemma CleanedAppend(a: string, b: string)
    ensures Cleaned(a + b) == Cleaned(a) + Cleaned(b)
  {
    ReplaceAppend(a, b, '-', ' ');
    ReplaceAppend(Replace(a, '-', ' '), Replace(b, '-', ' '), '/', ' ');
    KeepAppend(Replace(Replace(a, '-', ' '), '/', ' '), Replace(Replace(b, '-', ' '), '/', ' '), KeptChar);
  }

  /** A dash, a slash and a space all separate tokens in the same way. */
  lemma SeparatorsSplit(a: string, sep: char, b: string)
    requires sep == '-' || sep == '/' || sep == ' '
    ensures Tokenize(a + [sep] + b) == Tokenize(a) + Tokenize(b)
  {
    CleanedAppend(a + [sep], b);
    CleanedAppend(a, [sep]);
    assert Cleaned([sep]) == [' '];
    WordsAroundSpace(Cleaned(a), Cleaned(b));
  }

  /** A character that is neither a token character, a space, a dash nor a slash is dropped without a trace. */
  lemma OtherCharsDropped(a: string, c: char, b: string)
    requires !KeptChar(c) && c != '-' && c != '/'
    ensures Tokenize(a + [c] + b) == Tokenize(a + b)
  {
    CleanedSkip(a, c, b);
  }

  lemma CleanedSkip(a: string, c: char, b: string)
    requires !KeptChar(c) && c != '-' && c != '/'
    ensures Cleaned(a + [c] + b) == Cleaned(a + b)
  {
    CleanedAppend(a + [c], b);
    CleanedAppend(a, [c]);
    CleanedAppend(a, b);
    CleanedDropped(c);
    EmptyMiddle(Cleaned(a), Cleaned([c]), Cleaned(b));
  }

  lemma EmptyMiddle<T>(x: seq<T>, e: seq<T>, y: seq<T>)
    requires e == []
    ensures x + e + y == x + y
  {
  }

  lemma CleanedDropped(c: char)
    requires !KeptChar(c) && c != '-' && c != '/'
    ensures Cleaned([c]) == []
  {
    assert Replace([c], '-', ' ') == [c];
    assert Replace([c], '/', ' ') == [c];
    assert Keep([c], KeptChar) == [];
  }

  /** A token contributes no tag when, without apostrophes, it is all digits or a dictionary word. */
  predicate Skipped(tg: Tagger, word: string) {
    var w := Remove(word, '\'');
    IsDigits(w) || Lower(w) in tg.dictionary
  }

  // ---------------------------------------------------------------------
  // Candidates for one word
  // ---------------------------------------------------------------------

  /** The word with a trailing possessive `'s` (either case) removed. */
  function Singular(word: string): (r: string)
    ensures StartsWith(word, r)
    ensures r != word <==> EndsWith(Lower(word), "'s")
    ensures r != word ==> |r| + 2 == |word| && Lower(word[|r|..]) == "'s"
  {
    if EndsWith(Lower(word), "'s") then
      var r := word[..|word| - 2];
      assert Lower(word[|r|..]) == Lower(word)[|r|..];
      r
    else word
  }

  /** A previous word exists and is non-empty (Python truthiness). */
  predicate HasPrev(words: seq<string>, i: int) { 0 < i < |words| && words[i - 1] != "" }

  /** A next word exists and is non-empty. */
  predicate HasNext(words: seq<string>, i: int) { 0 <= i < |words| - 1 && words[i + 1] != "" }

  /** Both neighbours exist and neither is a stopword: the condition for the three-word candidate. */
  predicate BothValid(words: seq<string>, i: int, stopwords: set<string>) {
    HasPrev(words, i) && words[i - 1] !in stopwords && HasNext(words, i) && words[i + 1] !in stopwords
  }

  /** `possible_for_index`: the word alone, then with the previous word, with the next word, and with both. */
  function PossibleForIndex(words: seq<string>, i: nat, stopwords: set<string>): (r: seq<string>)
    requires i < |words|
    ensures 1 <= |r| <= 4
    ensures r[0] == Remove(Singular(words[i]), '\'')
    ensures forall k :: 0 <= k < |r| ==> '\'' !in r[k]
    ensures |r| == 1 + (if HasPrev(words, i) then 1 else 0) + (if HasNext(words, i) then 1 else 0)
                     + (if BothValid(words, i, stopwords) then 1 else 0)
  {
    var word := Singular(words[i]);
    var tags := [word]
      + (if HasPrev(words, i) then [words[i - 1] + word] else [])
      + (if HasNext(words, i) then [word + words[i + 1]] else [])
      + (if BothValid(words, i, stopwords) then [words[i - 1] + word + words[i + 1]] else []);
    seq(|tags|, k requires 0 <= k < |tags| => Remove(tags[k], '\''))
  }

  /**
   * For the tokens of a title: the previous-word candidate is present exactly
   * when `i > 0`, the next-word candidate exactly when `i` is not the last
   * index, whatever the stopwords, and the three-word candidate only when
   * both neighbours are non-stopwords.
   */
  lemma NeighbourCandidates(words: seq<string>, i: nat, stopwords: set<string>)
    requires i < |words|
    requires forall k :: 0 <= k < |words| ==> |words[k]| > 0
    ensures var r := PossibleForIndex(words, i, stopwords);
      var w := Singular(words[i]);
      && (i > 0 ==> r[1] == Remove(words[i - 1] + w, '\''))
      && (i < |words| - 1 ==> r[if i > 0 then 2 else 1] == Remove(w + words[i + 1], '\''))
      && (|r| == 4 <==> 0 < i < |words| - 1 && words[i - 1] !in stopwords && words[i + 1] !in stopwords)
      && (|r| == 4 ==> r[3] == Remove(words[i - 1] + w + words[i + 1], '\''))
      && |r| == 1 + (if i > 0 then 1 else 0) + (if i < |words| - 1 then 1 else 0)
                  + (if |r| == 4 then 1 else 0)
  {
  }

  // ---------------------------------------------------------------------
  // Choosing the best candidate
  // ---------------------------------------------------------------------

  predicate Eligible(tg: Tagger, t: string) { |t| >= tg.minLength }

  /** The scan of `best_with_score` from index `i` on, with the best tag and high score so far. */
  function BestFrom(tg: Tagger, tags: seq<string>, i: nat, best: Option<string>, high: int): (r: (Option<string>, int))
    requires i <= |tags|
    ensures r.1 >= high
    ensures forall k :: i <= k < |tags| && Eligible(tg, tags[k]) ==> tg.scorer(tags[k]) <= r.1
    ensures r.1 == high ==> r.0 == best
    decreases |tags| - i
  {
    if i == |tags| then (best, high)
    else if Eligible(tg, tags[i]) && tg.scorer(tags[i]) > high then
      BestFrom(tg, tags, i + 1, Some(tags[i]), tg.scorer(tags[i]))
    else
      BestFrom(tg, tags, i + 1, best, high)
  }

  /** `tags[k]` is the first eligible candidate from index `i` on whose score reaches `score`. */
  predicate FirstReaching(tg: Tagger, tags: seq<string>, i: nat, k: int, score: int) {
    && i <= k < |tags| && Eligible(tg, tags[k]) && tg.scorer(tags[k]) == score
    && forall j :: i <= j < k && Eligible(tg, tags[j]) ==> tg.scorer(tags[j]) < score
  }

  /** A score above the starting one belongs to the first eligible candidate that reaches it. */
  lemma {:induction false} BestFromFirst(tg: Tagger, tags: seq<string>, i: nat, best: Option<string>, high: int)
    requires i <= |tags|
    ensures var r := BestFrom(tg, tags, i, best, high);
      r.1 > high ==> exists k :: FirstReaching(tg, tags, i, k, r.1) && r.0 == Some(tags[k])
    decreases |tags| - i
  {
    if i < |tags| {
      var r := BestFrom(tg, tags, i, best, high);
      var taken := Eligible(tg, tags[i]) && tg.scorer(tags[i]) > high;
      var high' := if taken then tg.scorer(tags[i]) else high;
      var best' := if taken then Some(tags[i]) else best;
      BestFromFirst(tg, tags, i + 1, best', high');
      assert r == BestFrom(tg, tags, i + 1, best', high');
      if taken && r.1 == high' {
        assert FirstReaching(tg, tags, i, i, r.1);
      } else if r.1 > high {
        var k :| FirstReaching(tg, tags, i + 1, k, r.1) && r.0 == Some(tags[k]);
        assert FirstReaching(tg, tags, i, k, r.1);
      }
    }
  }

  /**
   * `best_with_score`: the first eligible candidate with the strictly
   * greatest score, provided that score is above zero; `(None, 0)` otherwise.
   */
  function BestWithScore(tg: Tagger, tags: seq<string>): (r: (Option<string>, int))
    ensures r.1 >= 0
    ensures r.0.None? <==> forall t :: t in tags && Eligible(tg, t) ==> tg.scorer(t) <= 0
    ensures r.0.None? ==> r.1 == 0
    ensures r.0.Some? ==>
      && r.1 > 0
      && (forall t :: t in tags && Eligible(tg, t) ==> tg.scorer(t) <= r.1)
      && exists k :: 0 <= k < |tags| && tags[k] == r.0.value && Eligible(tg, tags[k]) && tg.scorer(tags[k]) == r.1
           && forall j :: 0 <= j < k && Eligible(tg, tags[j]) ==> tg.scorer(tags[j]) < r.1
  {
    BestFromFirst(tg, tags, 0, None, 0);
    BestFrom(tg, tags, 0, None, 0)
  }

  /** The scan only ever looks at the scores of eligible candidates. */
  lemma {:induction false} BestFromIgnoresShortCandidates(tg1: Tagger, tg2: Tagger, tags: seq<string>, i: nat,
                                                          best: Option<string>, high: int)
    requires i <= |tags|
    requires tg1.minLength == tg2.minLength
    requires forall t :: t in tags && Eligible(tg1, t) ==> tg1.scorer(t) == tg2.scorer(t)
    ensures BestFrom(tg1, tags, i, best, high) == BestFrom(tg2, tags, i, best, high)
    decreases |tags| - i
  {
    if i < |tags| {
      assert tags[i] in tags;
      if Eligible(tg1, tags[i]) && tg1.scorer(tags[i]) > high {
        BestFromIgnoresShortCandidates(tg1, tg2, tags, i + 1, Some(tags[i]), tg1.scorer(tags[i]));
      } else {
        BestFromIgnoresShortCandidates(tg1, tg2, tags, i + 1, best, high);
      }
    }
  }

  /** `best_with_score` does not depend on what the scorer says of candidates shorter than the minimum. */
  lemma ScorerConsultedOnlyWhenLongEnough(tg1: Tagger, tg2: Tagger, tags: seq<string>)
    requires tg1.minLength == tg2.minLength
    requires forall t :: t in tags && Eligible(tg1, t) ==> tg1.scorer(t) == tg2.scorer(t)
    ensures BestWithScore(tg1, tags) == BestWithScore(tg2, tags)
  {
    BestFromIgnoresShortCandidates(tg1, tg2, tags, 0, None, 0);
  }

  // ---------------------------------------------------------------------
  // Choosing tags for every word
  // ---------------------------------------------------------------------

  predicate DifferIgnoringCase(a: Scored, b: Scored) { Lower(a.tag) != Lower(b.tag) }

  /** Some candidate equals, ignoring case, a tag already chosen. */
  predicate AnyUsed(possible: seq<string>, chosen: seq<Scored>) {
    exists j, k :: 0 <= j < |possible| && 0 <= k < |chosen| && Lower(possible[j]) == Lower(chosen[k].tag)
  }

  /** What every chosen tag satisfies: long enough, positive score that is its own score, pairwise different ignoring case. */
  predicate Good(tg: Tagger, chosen: seq<Scored>) {
    && (forall k :: 0 <= k < |chosen| ==>
          Eligible(tg, chosen[k].tag) && chosen[k].score > 0 && chosen[k].score == tg.scorer(chosen[k].tag))
    && Sorting.Pairwise(chosen, DifferIgnoringCase)
  }

  /** One iteration of the loop in `tags`, for the word at index `i`. */
  function ChooseFor(tg: Tagger, words: seq<string>, i: nat, chosen: seq<Scored>): (r: seq<Scored>)
    requires i < |words|
    ensures Good(tg, chosen) ==> Good(tg, r)
    ensures r == chosen || (|r| == |chosen| + 1 && r[..|chosen|] == chosen
                            && r[|chosen|].tag in PossibleForIndex(words, i, tg.stopwords))
  {
    if Skipped(tg, words[i]) then chosen
    else
      var possible := PossibleForIndex(words, i, tg.stopwords);
      if AnyUsed(possible, chosen) then chosen
      else
        var (best, score) := BestWithScore(tg, possible);
        if best.None? then chosen
        else
          var x := Scored(best.value, score);
          var r := chosen + [x];
          assert r[..|chosen|] == chosen;
          if Good(tg, chosen) then
            var k0 :| 0 <= k0 < |possible| && possible[k0] == best.value && Eligible(tg, possible[k0])
              && tg.scorer(possible[k0]) == score;
            GoodAppend(tg, chosen, possible, k0, x);
            r
          else
            r
  }

  /** Appending an eligible, positively scored candidate none of whose fellow candidates was chosen keeps the tags good. */
  lemma GoodAppend(tg: Tagger, chosen: seq<Scored>, possible: seq<string>, k0: nat, x: Scored)
    requires Good(tg, chosen) && !AnyUsed(possible, chosen)
    requires k0 < |possible| && possible[k0] == x.tag
    requires Eligible(tg, x.tag) && x.score > 0 && x.score == tg.scorer(x.tag)
    ensures Good(tg, chosen + [x])
  {
    forall k | 0 <= k < |chosen| ensures DifferIgnoringCase(chosen[k], x) && DifferIgnoringCase(x, chosen[k]) {
      assert Lower(possible[k0]) != Lower(chosen[k].tag);
    }
    Sorting.PairwiseAppend(chosen, x, DifferIgnoringCase);
  }

  /** The loop in `tags` from word `i` to the end. */
  function Choose(tg: Tagger, words: seq<string>, i: nat, chosen: seq<Scored>): (r: seq<Scored>)
    ensures Good(tg, chosen) ==> Good(tg, r)
    decreases |words| - i
  {
    if i >= |words| then chosen else Choose(tg, words, i + 1, ChooseFor(tg, words, i, chosen))
  }

  /**
   * `tags`: the chosen tags sorted by score, highest first. Every tag is at
   * least `minLength` long and scores above zero, no two are equal
   * ignoring case, and scores never increase along the list.
   */
  function Tags(tg: Tagger, text: string): (r: seq<string>)
    ensures forall k :: 0 <= k < |r| ==> |r[k]| >= tg.minLength && tg.scorer(r[k]) > 0
    ensures forall j, k :: 0 <= j < |r| && 0 <= k < |r| && j != k ==> Lower(r[j]) != Lower(r[k])
    ensures forall j, k :: 0 <= j < k < |r| ==> tg.scorer(r[j]) >= tg.scorer(r[k])
  {
    var chosen := Choose(tg, Tokenize(text), 0, []);
    var sorted := Sorting.SortDesc(chosen, ScoreOf);
    SortedStaysGood(tg, chosen);
    TagsOf(sorted)
  }

  function TagsOf(s: seq<Scored>): (r: seq<string>)
    ensures |r| == |s| && forall k :: 0 <= k < |s| ==> r[k] == s[k].tag
  {
    seq(|s|, k requires 0 <= k < |s| => s[k].tag)
  }

  /** Sorting the chosen tags by score keeps them good and orders their scores. */
  lemma SortedStaysGood(tg: Tagger, chosen: seq<Scored>)
    requires Good(tg, chosen)
    ensures var sorted := Sorting.SortDesc(chosen, ScoreOf);
      && Good(tg, sorted)
      && forall j, k :: 0 <= j < k < |sorted| ==> sorted[j].score >= sorted[k].score
  {
    var sorted := Sorting.SortDesc(chosen, ScoreOf);
    Sorting.SortPairwise(chosen, ScoreOf, DifferIgnoringCase);
    forall k | 0 <= k < |sorted|
      ensures Eligible(tg, sorted[k].tag) && sorted[k].score > 0 && sorted[k].score == tg.scorer(sorted[k].tag)
    {
      assert sorted[k] in multiset(chosen);
      var i :| 0 <= i < |chosen| && chosen[i] == sorted[k];
    }
  }

  /** The tags returned are exactly the tags chosen word by word, each once. */
  lemma TagsAreChosen(tg: Tagger, text: string)
    ensures var chosen := Choose(tg, Tokenize(text), 0, []);
      multiset(Tags(tg, text)) == multiset(TagsOf(chosen))
  {
    var chosen := Choose(tg, Tokenize(text), 0, []);
    var sorted := Sorting.SortDesc(chosen, ScoreOf);
    MultisetOfTags(chosen, sorted);
  }

  lemma TagsOfAppend(x: seq<Scored>, y: seq<Scored>)
    ensures TagsOf(x + y) == TagsOf(x) + TagsOf(y)
  {
  }

  /** Removing one occurrence of `x` from both sides of a multiset equation. */
  lemma MultisetCancel<T>(a: seq<T>, b1: seq<T>, x: T, b2: seq<T>)
    requires multiset([x] + a) == multiset(b1 + [x] + b2)
    ensures multiset(a) == multiset(b1 + b2)
  {
    forall y ensures multiset(a)[y] == multiset(b1 + b2)[y] {
      assert multiset([x] + a)[y] == multiset{x}[y] + multiset(a)[y];
      assert multiset(b1 + [x] + b2)[y] == multiset(b1)[y] + multiset{x}[y] + multiset(b2)[y];
    }
  }

  /** Sequences with the same elements, counted with multiplicity, have the same tags. */
  lemma {:induction false} MultisetOfTags(a: seq<Scored>, b: seq<Scored>)
    requires multiset(a) == multiset(b)
    ensures multiset(TagsOf(a)) == multiset(TagsOf(b))
    decreases |a|
  {
    if |a| > 0 {
      var x := a[0];
      assert x in multiset(b);
      var i :| 0 <= i < |b| && b[i] == x;
      assert b == b[..i] + [x] + b[i + 1..];
      assert a == [x] + a[1..];
      MultisetCancel(a[1..], b[..i], x, b[i + 1..]);
      MultisetOfTags(a[1..], b[..i] + b[i + 1..]);
      TagsMoveStep(a[1..], b[..i], x, b[i + 1..]);
    }
  }

  /** The step of `MultisetOfTags`: putting one element back in front on one side and in the middle on the other. */
  lemma TagsMoveStep(a: seq<Scored>, b1: seq<Scored>, x: Scored, b2: seq<Scored>)
    requires multiset(TagsOf(a)) == multiset(TagsOf(b1 + b2))
    ensures multiset(TagsOf([x] + a)) == multiset(TagsOf(b1 + [x] + b2))
  {
    TagsOfAppend([x], a);
    TagsOfAppend(b1 + [x], b2);
    TagsOfAppend(b1, [x]);
    TagsOfAppend(b1, b2);
  }

  /** A numeric or dictionary word contributes nothing, whatever its neighbours. */
  lemma SkippedWordContributesNothing(tg: Tagger, words: seq<string>, i: nat, chosen: seq<Scored>)
    requires i < |words|
    requires IsDigits(Remove(words[i], '\'')) || Lower(Remove(words[i], '\'')) in tg.dictionary
    ensures ChooseFor(tg, words, i, chosen) == chosen
  {
  }

  /** A word one of whose candidates was already chosen, ignoring case, contributes nothing. */
  lemma UsedWordContributesNothing(tg: Tagger, words: seq<string>, i: nat, chosen: seq<Scored>, j: nat, k: nat)
    requires i < |words|
    requires j < |PossibleForIndex(words, i, tg.stopwords)| && k < |chosen|
    requires Lower(PossibleForIndex(words, i, tg.stopwords)[j]) == Lower(chosen[k].tag)
    ensures ChooseFor(tg, words, i, chosen) == chosen
  {
  }

  /** Otherwise the word contributes its best candidate, with that candidate's score, if it has one. */
  lemma FreshWordContributesBest(tg: Tagger, words: seq<string>, i: nat, chosen: seq<Scored>)
    requires i < |words|
    requires !Skipped(tg, words[i])
    requires !AnyUsed(PossibleForIndex(words, i, tg.stopwords), chosen)
    ensures var (best, score) := BestWithScore(tg, PossibleForIndex(words, i, tg.stopwords));
      ChooseFor(tg, words, i, chosen) == if best.None? then chosen else chosen + [Scored(best.value, score)]
  {
  }
}
