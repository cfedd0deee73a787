/**
 * The posting side of `Bot` in babbler/bot.py: a queued entry becomes a
 * tweet, hashtags are appended while the tweet stays within the length
 * limit, and the entry is processed unless posting failed for a reason
 * other than a duplicate status. Posting is an outcome the caller supplies.
 * Also the migration of data saved by earlier versions.
 */
module Bot {
  import opened Wrappers
  import opened Text
  import opened Feeds
  import opened Sequences
  import Tagging

  const TweetMaxLen := 140

  /** The error text Twitter gives for a status already posted. */
  const DuplicateStatus := "Status is a duplicate."

  /** A tweet and the status it replies to, if any. */
  datatype Draft = Draft(text: string, replyTo: Option<Id>)

  /**
   * A reply entry is addressed to the sender of the mention and replies to
   * it; a feed entry is its title alone and replies to nothing.
   */
  function Compose(e: Entry): (d: Draft)
    ensures EndsWith(d.text, e.title)
    ensures d.replyTo.Some? <==> e.to.Some?
    ensures e.to.Some? ==> d.replyTo == Some(e.id) && StartsWith(d.text, e.to.value + " ")
    ensures e.to.None? ==> d.text == e.title
    ensures e.to.Some? ==> d.text == e.to.value + " " + e.title
  {
    if e.to.Some? then
      var text := e.to.value + " " + e.title;
      assert text[..|e.to.value + " "|] == e.to.value + " ";
      assert text[|text| - |e.title|..] == e.title;
      Draft(text, Some(e.id))
    else
      assert e.title[|e.title| - |e.title|..] == e.title;
      Draft(e.title, None)
  }

  /** The text appended for one tag. */
  function Hash(tag: string): string { " #" + tag }

  /** The texts of several tags, one after the other. */
  function Hashes(tags: seq<string>): string
  {
    if |tags| == 0 then "" else Hash(tags[0]) + Hashes(tags[1..])
  }

  lemma {:induction false} HashesAppend(a: seq<string>, b: seq<string>)
    ensures Hashes(a + b) == Hashes(a) + Hashes(b)
  {
    if |a| > 0 {
      assert (a + b)[1..] == a[1..] + b;
      HashesAppend(a[1..], b);
    } else {
      assert a + b == b;
    }
  }

  /** The tag may be appended: the tweet stays within the limit and does not already hold `#tag`, ignoring case. */
  predicate Fits(tweet: string, tag: string) {
    |tweet + Hash(tag)| <= TweetMaxLen && !Contains(Lower(tweet), Lower(Strip(Hash(tag))))
  }

  /**
   * `r` is `tweet` followed by the tags flagged in `sel`, and a tag is
   * flagged exactly when `ok` accepts it for the tweet as it stands at its
   * turn, that is with the tags flagged before it appended.
   */
  predicate Appended(tweet: string, tags: seq<string>, ok: (string, string) -> bool, sel: seq<bool>, r: string) {
    && |sel| == |tags|
    && r == tweet + Hashes(Picked(tags, sel))
    && forall j :: 0 <= j < |tags| ==> sel[j] == ok(tweet + Hashes(Picked(tags[..j], sel[..j])), tags[j])
  }

  /**
   * A tag loop: each tag in turn is appended as ` #tag` when `ok` accepts
   * it for the tweet as it stands at that point.
   */
  function AppendTags(tweet: string, tags: seq<string>, ok: (string, string) -> bool): (r: string)
    ensures StartsWith(r, tweet)
    ensures exists sel :: Appended(tweet, tags, ok, sel, r)
    ensures (forall t, x :: ok(t, x) ==> |t + Hash(x)| <= TweetMaxLen) && |tweet| <= TweetMaxLen ==> |r| <= TweetMaxLen
    ensures (forall t, x :: ok(t, x) ==> |t + Hash(x)| <= TweetMaxLen) && |tweet| > TweetMaxLen ==> r == tweet
    decreases |tags|
  {
    if |tags| == 0 then
      assert Appended(tweet, tags, ok, [], tweet);
      tweet
    else
      var next := if ok(tweet, tags[0]) then tweet + Hash(tags[0]) else tweet;
      var r := AppendTags(next, tags[1..], ok);
      var sel :| Appended(next, tags[1..], ok, sel, r);
      AppendedCons(tweet, tags, ok, sel, r);
      assert r[..|tweet|] == tweet by {
        assert r[..|next|] == next;
      }
      r
  }

  /** The step of `AppendTags`: the first tag's flag in front of the rest's. */
  lemma AppendedCons(tweet: string, tags: seq<string>, ok: (string, string) -> bool, sel: seq<bool>, r: string)
    requires |tags| > 0
    requires Appended(if ok(tweet, tags[0]) then tweet + Hash(tags[0]) else tweet, tags[1..], ok, sel, r)
    ensures Appended(tweet, tags, ok, [ok(tweet, tags[0])] + sel, r)
  {
    var f := ok(tweet, tags[0]);
    var all := [f] + sel;
    var next := if f then tweet + Hash(tags[0]) else tweet;
    assert r == tweet + Hashes(Picked(tags, all)) by {
      var pre: seq<string> := if f then [tags[0]] else [];
      assert Hashes(pre) == if f then Hash(tags[0]) else "";
      assert all[1..] == sel;
      assert Picked(tags, all) == pre + Picked(tags[1..], sel);
      HashesAppend(pre, Picked(tags[1..], sel));
    }
    forall j | 0 <= j < |tags|
      ensures all[j] == ok(tweet + Hashes(Picked(tags[..j], all[..j])), tags[j])
    {
      if j == 0 {
        assert Picked(tags[..0], all[..0]) == [];
        assert tweet + Hashes([]) == tweet;
      } else {
        assert sel[j - 1] == ok(next + Hashes(Picked(tags[1..][..j - 1], sel[..j - 1])), tags[1..][j - 1]);
        AppendedConsAt(tweet, tags, ok, sel, j);
      }
    }
  }

  lemma AppendedConsAt(tweet: string, tags: seq<string>, ok: (string, string) -> bool, sel: seq<bool>, j: nat)
    requires |sel| + 1 == |tags| && 0 < j < |tags|
    requires var next := if ok(tweet, tags[0]) then tweet + Hash(tags[0]) else tweet;
      sel[j - 1] == ok(next + Hashes(Picked(tags[1..][..j - 1], sel[..j - 1])), tags[1..][j - 1])
    ensures var all := [ok(tweet, tags[0])] + sel;
      all[j] == ok(tweet + Hashes(Picked(tags[..j], all[..j])), tags[j])
  {
    var f := ok(tweet, tags[0]);
    var all := [f] + sel;
    var pre: seq<string> := if f then [tags[0]] else [];
    var next := if f then tweet + Hash(tags[0]) else tweet;
    var rest := Picked(tags[1..][..j - 1], sel[..j - 1]);
    assert Hashes(pre) == if f then Hash(tags[0]) else "";
    PickedPrefix(tags, all, j);
    assert all[1..][..j - 1] == sel[..j - 1];
    assert Picked(tags[..j], all[..j]) == pre + rest;
    HashesAppend(pre, rest);
    assert tweet + Hashes(pre + rest) == next + Hashes(rest);
    assert all[j] == sel[j - 1] && tags[j] == tags[1..][j - 1];
  }

  lemma PickedPrefix(tags: seq<string>, all: seq<bool>, j: nat)
    requires |all| == |tags| && 0 < j <= |tags|
    ensures Picked(tags[..j], all[..j])
         == (if all[0] then [tags[0]] else []) + Picked(tags[1..][..j - 1], all[1..][..j - 1])
  {
    assert tags[..j][1..] == tags[1..][..j - 1];
    assert all[..j][1..] == all[1..][..j - 1];
  }

  /**
   * The tag loop of `run`: each tag, in the tagger's order, is appended
   * when it fits the tweet as it stands at that point. Every tag is
   * considered; the tweet never goes past the limit through tags.
   */
  function AddTags(tweet: string, tags: seq<string>): (r: string)
    ensures StartsWith(r, tweet)
    ensures exists sel :: Appended(tweet, tags, Fits, sel, r)
    ensures |tweet| <= TweetMaxLen ==> |r| <= TweetMaxLen
    ensures |tweet| > TweetMaxLen ==> r == tweet
  {
    AppendTags(tweet, tags, Fits)
  }

  /** A tag whose `#tag` the tweet already holds, ignoring case, is passed over. */
  lemma PresentTagSkipped(tweet: string, tag: string, tags: seq<string>)
    requires Contains(Lower(tweet), Lower(Strip(Hash(tag))))
    ensures AddTags(tweet, [tag] + tags) == AddTags(tweet, tags)
  {
    assert ([tag] + tags)[1..] == tags;
  }

  /** A tweet with no room for two more characters gets no tag at all. */
  lemma {:induction false} FullTweetGetsNoTags(tweet: string, tags: seq<string>)
    requires |tweet| + 2 > TweetMaxLen
    ensures AddTags(tweet, tags) == tweet
    decreases |tags|
  {
    if |tags| > 0 {
      assert !Fits(tweet, tags[0]);
      FullTweetGetsNoTags(tweet, tags[1..]);
    }
  }

  /** The entry is done: a dry run posts nothing, and a failed post counts only when it was a duplicate. */
  predicate Completed(dryRun: bool, error: Option<string>) {
    dryRun || error.None? || error.value == DuplicateStatus
  }

  /**
   * One pass of the main loop of `run` with `f.todo[0]` the entry the feed
   * yielded: the tweet to post, and the feed after the done rule.
   * `error` is the text of the `TwitterError` the post raised, if any.
   */
  function RunStep(f: Feed, tg: Tagging.Tagger, dryRun: bool, error: Option<string>): (r: (Draft, Feed))
    requires |f.todo| > 0
    ensures var e := f.todo[0];
      && StartsWith(r.0.text, Compose(e).text)
      && r.0.replyTo == Compose(e).replyTo
      && (|Compose(e).text| <= TweetMaxLen ==> |r.0.text| <= TweetMaxLen)
    ensures exists sel :: Appended(Compose(f.todo[0]).text, Tagging.Tags(tg, f.todo[0].title), Fits, sel, r.0.text)
    ensures Completed(dryRun, error) ==> r.1 == Process(f)
    ensures !Completed(dryRun, error) ==> r.1 == f
  {
    var e := f.todo[0];
    var d := Compose(e);
    var text := AddTags(d.text, Tagging.Tags(tg, e.title));
    (Draft(text, d.replyTo), if Completed(dryRun, error) then Process(f) else f)
  }

  /** A post that failed for any reason but a duplicate leaves the entry at the head of the queue, to be tried again. */
  lemma FailedPostRetried(f: Feed, tg: Tagging.Tagger, e: string)
    requires |f.todo| > 0 && e != DuplicateStatus
    ensures RunStep(f, tg, false, Some(e)).1 == f
  {
  }

  /** Whatever happens to the post, the queue stays well formed and `done` only grows. */
  lemma RunStepKeepsQueueInv(f: Feed, tg: Tagging.Tagger, dryRun: bool, error: Option<string>)
    requires |f.todo| > 0 && QueueInv(f)
    ensures var g := RunStep(f, tg, dryRun, error).1;
      QueueInv(g) && f.done <= g.done && Saved(g) == Saved(f)
  {
    if Completed(dryRun, error) {
      ProcessKeepsQueueInv(f);
    }
  }

  // ---------------------------------------------------------------------
  // Migration of saved data
  // ---------------------------------------------------------------------

  /**
   * The keys of the saved data that the migration reads: `todo` and `done`
   * of the 0.1 format, and `feed`, a feed object of any version.
   */
  datatype Stored = Stored(todo: Option<seq<Entry>>, done: Option<set<Id>>, feed: Option<Feed>)

  /**
   * The migration in `__init__`: a 0.1 `todo`/`done` pair becomes a feed;
   * then whatever feed is stored is copied into a fresh responding feed.
   * `None` where a key is missing (`KeyError`): `done` missing beside
   * `todo`, or no feed at all.
   */
  function Migrate(s: Stored): (r: Option<Feed>)
    ensures r.None? <==> (s.todo.Some? && s.done.None?) || (s.todo.None? && s.feed.None?)
    ensures r.Some? && s.todo.Some? ==> r.value == Feed(s.todo.value, s.done.value)
    ensures r.Some? && s.todo.None? ==> r.value.todo == s.feed.value.todo && r.value.done == s.feed.value.done
  {
    var feed :=
      if s.todo.Some? then
        if s.done.None? then None else Some(Feed(s.todo.value, s.done.value))
      else s.feed;
    match feed
    case None => None
    case Some(f) => Some(Feed(f.todo, f.done))
  }

  /** Migrating migrated data changes nothing. */
  lemma MigrateIdempotent(s: Stored)
    requires Migrate(s).Some?
    ensures Migrate(Stored(None, None, Migrate(s))) == Migrate(s)
  {
  }
}
