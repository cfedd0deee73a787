/**
 * The 0.1 script babbler.py: a dictionary read from a word list, and one
 * round of its main loop. The round takes the oldest feed entry not yet
 * recorded that fits in a tweet, records it with its untagged title, and
 * posts it with hashtags for its non-dictionary words, longest first. Each
 * hashtag is added only if it fits and someone else has used it. The search
 * for other uses of a tag is an oracle the caller supplies.
 */
module Script {
  import opened Wrappers
  import opened Text
  import opened Sequences
  import opened Sorting
  import Bot

  /** A feed entry as the script reads it: its id and its title. */
  datatype Entry = Entry(id: string, title: string)

  // ---------------------------------------------------------------------
  // The dictionary
  // ---------------------------------------------------------------------

  /** The word a dictionary line gives: the line stripped, apostrophes removed. */
  function DictWord(line: string): string {
    Remove(Strip(line), '\'')
  }

  /**
   * The dictionary set: a word for each line that starts with a lowercase
   * letter, so that names are left out. Lines read from a file are never
   * empty, since each holds at least its newline or is the non-empty last line.
   */
  function Dictionary(lines: seq<string>): (r: set<string>)
    requires forall i :: 0 <= i < |lines| ==> |lines[i]| > 0
    ensures forall w :: w in r ==> '\'' !in w
    ensures forall w :: w in r <==> exists i :: 0 <= i < |lines| && IsLowerLetter(lines[i][0]) && w == DictWord(lines[i])
  {
    if |lines| == 0 then {}
    else
      var rest := Dictionary(lines[1..]);
      assert forall i :: 1 <= i < |lines| ==> lines[i] == lines[1..][i - 1];
      if IsLowerLetter(lines[0][0]) then {DictWord(lines[0])} + rest else rest
  }

  /** A line that does not start with a lowercase letter adds nothing to the dictionary. */
  lemma NameLineIgnored(line: string, lines: seq<string>)
    requires |line| > 0 && !IsLowerLetter(line[0])
    requires forall i :: 0 <= i < |lines| ==> |lines[i]| > 0
    ensures Dictionary([line] + lines) == Dictionary(lines)
  {
    assert ([line] + lines)[1..] == lines;
  }

  // ---------------------------------------------------------------------
  // Hashtag candidates
  // ---------------------------------------------------------------------

  /** A character the title keeps once lowercased: a letter, a digit or a space. */
  predicate Kept(c: char) { IsAlnum(c) || c == ' ' }

  /** The title lowercased, keeping only letters, digits and spaces. */
  function Chars(title: string): (r: string)
    ensures |r| <= |title|
    ensures forall k :: 0 <= k < |r| ==> Kept(r[k]) && !IsUpper(r[k])
    ensures forall c :: c in r <==> c in Lower(title) && Kept(c)
  {
    var r := Keep(Lower(title), Kept);
    assert forall c :: c in Lower(title) ==> !IsUpper(c);
    r
  }

  /** `Chars` works character by character: it distributes over concatenation ... */
  lemma CharsAppend(a: string, b: string)
    ensures Chars(a + b) == Chars(a) + Chars(b)
  {
    LowerAppend(a, b);
    KeepAppend(Lower(a), Lower(b), Kept);
  }

  /** ... and one character is lowercased and kept, or dropped. */
  lemma CharsOne(c: char)
    ensures Chars([c]) == if Kept(LowerChar(c)) then [LowerChar(c)] else []
  {
    assert Lower([c])[1..] == [];
  }

  /** A title already of lowercase letters, digits and spaces is its own `Chars`. */
  lemma CharsOfClean(title: string)
    requires forall k :: 0 <= k < |title| ==> Kept(title[k]) && !IsUpper(title[k])
    ensures Chars(title) == title
  {
    assert Lower(title) == title;
    KeepAll(title, Kept);
  }

  /** A word worth a hashtag: not in the dictionary and at least `minLen` long. */
  predicate Wanted(w: string, dict: set<string>, minLen: int) {
    w !in dict && |w| >= minLen
  }

  /** The wanted words, in their order, each as often as it occurs. */
  function FilterWanted(ws: seq<string>, dict: set<string>, minLen: int): (r: seq<string>)
    ensures Subseq(r, ws)
    ensures forall w :: w in r <==> w in ws && Wanted(w, dict, minLen)
    ensures forall w :: multiset(r)[w] == if Wanted(w, dict, minLen) then multiset(ws)[w] else 0
  {
    if |ws| == 0 then []
    else
      var rest := FilterWanted(ws[1..], dict, minLen);
      assert forall w :: w in ws <==> w == ws[0] || w in ws[1..];
      assert ws == [ws[0]] + ws[1..];
      if Wanted(ws[0], dict, minLen) then [ws[0]] + rest else rest
  }

  /**
   * The hashtag candidates of a title: the wanted words of its letters,
   * digits and spaces, in title order, each as often as the title holds
   * it. Each is a non-empty run of lowercase letters and digits.
   */
  function Candidates(title: string, dict: set<string>, minLen: int): (r: seq<string>)
    ensures Subseq(r, Words(Chars(title)))
    ensures forall w :: w in r <==> w in Words(Chars(title)) && Wanted(w, dict, minLen)
    ensures forall w :: multiset(r)[w] == if Wanted(w, dict, minLen) then multiset(Words(Chars(title)))[w] else 0
    ensures forall w, k :: w in r && 0 <= k < |w| ==> IsAlnum(w[k]) && !IsUpper(w[k])
    ensures forall w :: w in r ==> |w| > 0
  {
    var s := Chars(title);
    WordsChars(s, c => IsAlnum(c) && !IsUpper(c));
    FilterWanted(Words(s), dict, minLen)
  }

  /**
   * `hashtag_len_min` as the script stores it. The option is declared
   * without a type, so its default is the integer 3 but a value given on
   * the command line is kept as the text typed.
   */
  datatype MinLength = IntMin(n: int) | TextMin(text: string)

  /**
   * `len(w) >= options["hashtag_len_min"]` under Python 2, which orders
   * every integer below every string: against a text minimum it is false.
   */
  predicate AtLeast(w: string, m: MinLength) {
    match m
    case IntMin(n) => |w| >= n
    case TextMin(_) => false
  }

  /** The words not in the dictionary that pass the length test as written. */
  function KeepAtLeast(ws: seq<string>, dict: set<string>, m: MinLength): (r: seq<string>)
    ensures forall w :: w in r <==> w in ws && w !in dict && AtLeast(w, m)
  {
    if |ws| == 0 then []
    else
      var rest := KeepAtLeast(ws[1..], dict, m);
      assert forall w :: w in ws <==> w == ws[0] || w in ws[1..];
      if ws[0] !in dict && AtLeast(ws[0], m) then [ws[0]] + rest else rest
  }

  /** The candidates of babbler.py:118-121 with the minimum as stored. */
  function CandidatesAsWritten(title: string, dict: set<string>, m: MinLength): (r: seq<string>)
    ensures forall w :: w in r <==> w in Words(Chars(title)) && w !in dict && AtLeast(w, m)
  {
    KeepAtLeast(Words(Chars(title)), dict, m)
  }

  /** A minimum given on the command line keeps no word, so no title gets a hashtag. */
  lemma TextMinimumKeepsNoWord(title: string, dict: set<string>, text: string)
    ensures CandidatesAsWritten(title, dict, TextMin(text)) == []
  {
    KeepNothing(Words(Chars(title)), dict, text);
  }

  lemma {:induction false} KeepNothing(ws: seq<string>, dict: set<string>, text: string)
    ensures KeepAtLeast(ws, dict, TextMin(text)) == []
  {
    if |ws| > 0 {
      KeepNothing(ws[1..], dict, text);
    }
  }

  /** With an integer minimum, as the default is, the candidates are those of `Candidates`. */
  lemma IntMinimumAgrees(title: string, dict: set<string>, n: int)
    ensures CandidatesAsWritten(title, dict, IntMin(n)) == Candidates(title, dict, n)
  {
    KeepAtLeastInt(Words(Chars(title)), dict, n);
  }

  lemma {:induction false} KeepAtLeastInt(ws: seq<string>, dict: set<string>, n: int)
    ensures KeepAtLeast(ws, dict, IntMin(n)) == FilterWanted(ws, dict, n)
  {
    if |ws| > 0 {
      KeepAtLeastInt(ws[1..], dict, n);
    }
  }

  /** The sort key of the tag loop. */
  function Len(w: string): int { |w| }

  /**
   * `sorted(tags, key=len, reverse=True)`: longest first, the same tags,
   * and tags of one length in their original order, as Python's sort is
   * stable.
   */
  function LongestFirst(tags: seq<string>): (r: seq<string>)
    ensures SortedDesc(r, Len)
    ensures multiset(r) == multiset(tags)
    ensures forall n :: WithKey(r, Len, n) == WithKey(tags, Len, n)
  {
    var r := SortDesc(tags, Len);
    forall n ensures WithKey(r, Len, n) == WithKey(tags, Len, n) {
      SortStable(tags, Len, n);
    }
    r
  }

  // ---------------------------------------------------------------------
  // Appending hashtags
  // ---------------------------------------------------------------------

  /** The test of the tag loop: the tag stays within the limit and the search for `#tag` finds tweets. */
  predicate Popular(popular: string -> bool, tweet: string, tag: string) {
    |tweet + Bot.Hash(tag)| <= Bot.TweetMaxLen && popular(Strip(Bot.Hash(tag)))
  }

  /** `Popular` as the test a tag loop takes. */
  function PopularTest(popular: string -> bool): (string, string) -> bool {
    (t, x) => Popular(popular, t, x)
  }

  /**
   * The tag loop: each tag in turn is appended exactly when the tweet, as
   * it stands at its turn, stays within the limit with it and the search
   * for `#tag` finds tweets.
   */
  function AddPopular(tweet: string, tags: seq<string>, popular: string -> bool): (r: string)
    ensures StartsWith(r, tweet)
    ensures |tweet| <= Bot.TweetMaxLen ==> |r| <= Bot.TweetMaxLen
    ensures exists sel :: Bot.Appended(tweet, tags, PopularTest(popular), sel, r)
  {
    Bot.AppendTags(tweet, tags, PopularTest(popular))
  }

  /** A tag nobody else has used is never appended. */
  lemma UnusedTagSkipped(tweet: string, tag: string, tags: seq<string>, popular: string -> bool)
    requires !popular(Strip(Bot.Hash(tag)))
    ensures AddPopular(tweet, [tag] + tags, popular) == AddPopular(tweet, tags, popular)
  {
    assert ([tag] + tags)[1..] == tags;
  }

  // ---------------------------------------------------------------------
  // One round of the main loop
  // ---------------------------------------------------------------------

  /** An entry the round may post: not recorded yet, and short enough to tweet. */
  predicate Fresh(e: Entry, recorded: map<string, string>) {
    e.id !in recorded && |e.title| <= Bot.TweetMaxLen
  }

  /**
   * The loop over `reversed(entries)` up to its first fresh entry, the feed
   * listing its newest entry first: the index of the oldest fresh entry
   * among `entries[..n]`.
   */
  function Oldest(entries: seq<Entry>, recorded: map<string, string>, n: nat): (r: Option<nat>)
    requires n <= |entries|
    ensures r.Some? ==> r.value < n && Fresh(entries[r.value], recorded)
    ensures r.Some? ==> forall j :: r.value < j < n ==> !Fresh(entries[j], recorded)
    ensures r.None? ==> forall j :: 0 <= j < n ==> !Fresh(entries[j], recorded)
  {
    if n == 0 then None
    else if Fresh(entries[n - 1], recorded) then Some(n - 1)
    else Oldest(entries, recorded, n - 1)
  }

  /** What a round leaves behind: the recorded titles by entry id, and the tweet posted, if any. */
  datatype Round = Round(recorded: map<string, string>, posted: Option<string>)

  /**
   * One round: the oldest fresh entry, if any, is recorded with its title
   * as it is, then posted with its popular candidates appended longest
   * first; the round ends there.
   */
  function Step(entries: seq<Entry>, recorded: map<string, string>, dict: set<string>,
                minLen: int, popular: string -> bool): (r: Round)
    ensures r.posted.None? <==> forall j :: 0 <= j < |entries| ==> !Fresh(entries[j], recorded)
    ensures r.posted.None? ==> r.recorded == recorded
    ensures r.posted.Some? ==> exists j :: Posts(entries, recorded, dict, minLen, popular, r, j)
  {
    match Oldest(entries, recorded, |entries|)
    case None => Round(recorded, None)
    case Some(j) =>
      var e := entries[j];
      var tweet := AddPopular(e.title, LongestFirst(Candidates(e.title, dict, minLen)), popular);
      var r := Round(recorded[e.id := e.title], Some(tweet));
      assert Posts(entries, recorded, dict, minLen, popular, r, j);
      r
  }

  /**
   * The round posted entry `j`: the oldest fresh one, recorded with its
   * untagged title, its tweet the title followed by those of its
   * candidates, longest first, that passed the tag loop's test at their
   * turn, and within the limit.
   */
  ghost predicate Posts(entries: seq<Entry>, recorded: map<string, string>, dict: set<string>,
                  minLen: int, popular: string -> bool, r: Round, j: int) {
    && 0 <= j < |entries| && Fresh(entries[j], recorded)
    && (forall i :: j < i < |entries| ==> !Fresh(entries[i], recorded))
    && r.recorded == recorded[entries[j].id := entries[j].title]
    && r.posted.Some? && StartsWith(r.posted.value, entries[j].title)
    && |r.posted.value| <= Bot.TweetMaxLen
    && var tags := LongestFirst(Candidates(entries[j].title, dict, minLen));
       exists sel :: Bot.Appended(entries[j].title, tags, PopularTest(popular), sel, r.posted.value)
  }

  /** A round records at most one new entry, and keeps every earlier record. */
  lemma AtMostOnePost(entries: seq<Entry>, recorded: map<string, string>, dict: set<string>,
                      minLen: int, popular: string -> bool)
    ensures var r := Step(entries, recorded, dict, minLen, popular);
      && (forall id :: id in recorded ==> id in r.recorded && r.recorded[id] == recorded[id])
      && exists id :: r.recorded.Keys <= recorded.Keys + {id}
  {
    var r := Step(entries, recorded, dict, minLen, popular);
    if r.posted.Some? {
      var j :| Posts(entries, recorded, dict, minLen, popular, r, j);
      RecordNew(recorded, entries[j].id, entries[j].title);
    } else {
      assert r.recorded.Keys <= recorded.Keys + {""};
    }
  }

  lemma RecordNew(recorded: map<string, string>, id: string, title: string)
    requires id !in recorded
    ensures forall k :: k in recorded ==> k in recorded[id := title] && recorded[id := title][k] == recorded[k]
    ensures recorded[id := title].Keys <= recorded.Keys + {id}
  {
  }

  /** The number of fresh entries among `entries[..n]`. */
  function FreshCount(entries: seq<Entry>, recorded: map<string, string>, n: nat): nat
    requires n <= |entries|
  {
    if n == 0 then 0 else FreshCount(entries, recorded, n - 1) + (if Fresh(entries[n - 1], recorded) then 1 else 0)
  }

  /**
   * Recording more ids never makes an entry fresh, and recording the id of
   * a fresh entry among the first `n` leaves strictly fewer fresh ones.
   */
  lemma {:induction false} FreshCountShrinks(entries: seq<Entry>, recorded: map<string, string>, more: map<string, string>, n: nat, j: nat)
    requires n <= |entries| && recorded.Keys <= more.Keys
    requires j < n && Fresh(entries[j], recorded) && entries[j].id in more
    ensures FreshCount(entries, more, n) < FreshCount(entries, recorded, n)
  {
    if j < n - 1 {
      FreshCountShrinks(entries, recorded, more, n - 1, j);
    } else {
      FreshCountMonotone(entries, recorded, more, n - 1);
    }
  }

  lemma {:induction false} FreshCountMonotone(entries: seq<Entry>, recorded: map<string, string>, more: map<string, string>, n: nat)
    requires n <= |entries| && recorded.Keys <= more.Keys
    ensures FreshCount(entries, more, n) <= FreshCount(entries, recorded, n)
  {
    if n > 0 {
      FreshCountMonotone(entries, recorded, more, n - 1);
    }
  }

  /**
   * Each posting round uses up a fresh entry: rounds over the same feed post
   * at most as many tweets as the feed has fresh entries.
   */
  lemma PostingUsesUpFresh(entries: seq<Entry>, recorded: map<string, string>, dict: set<string>,
                           minLen: int, popular: string -> bool)
    ensures var r := Step(entries, recorded, dict, minLen, popular);
      r.posted.Some? ==> FreshCount(entries, r.recorded, |entries|) < FreshCount(entries, recorded, |entries|)
  {
    var r := Step(entries, recorded, dict, minLen, popular);
    if r.posted.Some? {
      var j :| Posts(entries, recorded, dict, minLen, popular, r, j);
      FreshCountShrinks(entries, recorded, r.recorded, |entries|, j);
    }
  }
}
