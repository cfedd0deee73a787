/**
 * The feed queue (`Feed` in babbler/feed.py): a FIFO `todo` list of entries
 * waiting to be tweeted and a `done` set of ids that were tweeted or
 * rejected. Fetching the RSS feed, the clock and sleeping are left to the
 * caller: a fetch is the sequence of parsed items, and one pass of the
 * `__iter__` loop is a pure `Tick` that is told the current time.
 */
module Feeds {
  import opened Wrappers
  import opened Text
  import opened Sequences

  /** Feed item ids are strings; Twitter status ids are integers, so the two never collide. */
  datatype Id = Guid(key: string) | Status(number: int)

  /** A queued entry; `to` is present only for replies built from mentions. */
  datatype Entry = Entry(id: Id, title: string, to: Option<string>)

  /** An item as the feed parser returns it. */
  datatype Item = Item(id: Id, title: string)

  datatype Config = Config(pause: int, queueSlice: real, maxLen: int, ignore: string)

  datatype Feed = Feed(todo: seq<Entry>, done: set<Id>)

  function Ids(es: seq<Entry>): set<Id> {
    set e | e in es :: e.id
  }

  predicate DistinctIds(es: seq<Entry>) {
    forall j, k :: 0 <= j < |es| && 0 <= k < |es| && j != k ==> es[j].id != es[k].id
  }

  predicate DistinctItemIds(items: seq<Item>) {
    forall j, k :: 0 <= j < |items| && 0 <= k < |items| && j != k ==> items[j].id != items[k].id
  }

  /** `saved()`: every id still queued or already done. */
  function Saved(f: Feed): (r: set<Id>)
    ensures forall id :: id in r <==> id in f.done || exists k :: 0 <= k < |f.todo| && f.todo[k].id == id
  {
    Ids(f.todo) + f.done
  }

  /** The queue is well formed: queued ids are distinct and none of them is done. */
  predicate QueueInv(f: Feed) {
    DistinctIds(f.todo) && Ids(f.todo) !! f.done
  }

  // ---------------------------------------------------------------------
  // Reading new entries
  // ---------------------------------------------------------------------

  /** The title holds, ignoring case, one of the non-empty comma-separated ignore strings. */
  predicate Ignored(ignore: string, title: string) {
    ignore != "" && exists s :: s in SplitOn(ignore, ',') && s != "" && Contains(Lower(title), Lower(s))
  }

  /** An unsaved item that is sent straight to `done`: ignored, or too long to tweet. */
  predicate Rejected(cfg: Config, it: Item) {
    Ignored(cfg.ignore, it.title) || |it.title| > cfg.maxLen
  }

  function ItemOf(e: Entry): Item { Item(e.id, e.title) }

  function ItemsOf(es: seq<Entry>): (r: seq<Item>)
    ensures |r| == |es| && forall k :: 0 <= k < |es| ==> r[k] == ItemOf(es[k])
  {
    seq(|es|, k requires 0 <= k < |es| => ItemOf(es[k]))
  }

  /**
   * The loop of `entries` over the items in visiting order, against the
   * `saved` snapshot taken before the loop: the accepted entries, in order,
   * and the ids rejected on the way.
   */
  function Visit(visit: seq<Item>, saved: set<Id>, cfg: Config): (r: (seq<Entry>, set<Id>))
    ensures forall e :: e in r.0 ==>
      e.id !in saved && e.to.None? && ItemOf(e) in visit && !Rejected(cfg, ItemOf(e))
    ensures forall id :: id in r.1 ==>
      id !in saved && exists it :: it in visit && it.id == id && Rejected(cfg, it)
    ensures forall it :: it in visit && it.id !in saved ==>
      (if Rejected(cfg, it) then it.id in r.1 else Entry(it.id, it.title, None) in r.0)
    ensures Subseq(ItemsOf(r.0), visit)
    decreases |visit|
  {
    if |visit| == 0 then ([], {})
    else
      var it := visit[0];
      var rest := Visit(visit[1..], saved, cfg);
      var r :=
        if it.id in saved then rest
        else if Ignored(cfg.ignore, it.title) || |it.title| > cfg.maxLen then (rest.0, rest.1 + {it.id})
        else ([Entry(it.id, it.title, None)] + rest.0, rest.1);
      VisitStep(visit, saved, cfg, rest, r);
      r
  }

  /** What `Visit` promises about its result `r` for the items `visit`. */
  predicate Visited(visit: seq<Item>, saved: set<Id>, cfg: Config, r: (seq<Entry>, set<Id>)) {
    && (forall e :: e in r.0 ==>
          e.id !in saved && e.to.None? && ItemOf(e) in visit && !Rejected(cfg, ItemOf(e)))
    && (forall id :: id in r.1 ==>
          id !in saved && exists it :: it in visit && it.id == id && Rejected(cfg, it))
    && (forall it :: it in visit && it.id !in saved ==>
          (if Rejected(cfg, it) then it.id in r.1 else Entry(it.id, it.title, None) in r.0))
    && Subseq(ItemsOf(r.0), visit)
  }

  /** One turn of the loop in `Visit` keeps its promises, from the rest of the items to all of them. */
  lemma VisitStep(visit: seq<Item>, saved: set<Id>, cfg: Config, rest: (seq<Entry>, set<Id>), r: (seq<Entry>, set<Id>))
    requires |visit| > 0 && Visited(visit[1..], saved, cfg, rest)
    requires var it := visit[0];
      r == if it.id in saved then rest
        else if Rejected(cfg, it) then (rest.0, rest.1 + {it.id})
        else ([Entry(it.id, it.title, None)] + rest.0, rest.1)
    ensures Visited(visit, saved, cfg, r)
  {
    var it := visit[0];
    if it.id in saved {
      VisitSkipsSaved(visit, saved, cfg, rest);
    } else if Rejected(cfg, it) {
      VisitRejects(visit, saved, cfg, rest);
    } else {
      VisitAccepts(visit, saved, cfg, rest);
    }
  }

  /** An item whose id was saved before the loop changes nothing. */
  lemma VisitSkipsSaved(visit: seq<Item>, saved: set<Id>, cfg: Config, rest: (seq<Entry>, set<Id>))
    requires |visit| > 0 && visit[0].id in saved && Visited(visit[1..], saved, cfg, rest)
    ensures Visited(visit, saved, cfg, rest)
  {
    assert forall x :: x in visit ==> x == visit[0] || x in visit[1..];
    SubseqSkip(ItemsOf(rest.0), visit);
  }

  /** A rejected unsaved item adds its id to the rejected ones. */
  lemma VisitRejects(visit: seq<Item>, saved: set<Id>, cfg: Config, rest: (seq<Entry>, set<Id>))
    requires |visit| > 0 && visit[0].id !in saved && Rejected(cfg, visit[0])
    requires Visited(visit[1..], saved, cfg, rest)
    ensures Visited(visit, saved, cfg, (rest.0, rest.1 + {visit[0].id}))
  {
    assert forall x :: x in visit ==> x == visit[0] || x in visit[1..];
    SubseqSkip(ItemsOf(rest.0), visit);
  }

  /** An accepted unsaved item becomes the first new entry. */
  lemma VisitAccepts(visit: seq<Item>, saved: set<Id>, cfg: Config, rest: (seq<Entry>, set<Id>))
    requires |visit| > 0 && visit[0].id !in saved && !Rejected(cfg, visit[0])
    requires Visited(visit[1..], saved, cfg, rest)
    ensures Visited(visit, saved, cfg, ([Entry(visit[0].id, visit[0].title, None)] + rest.0, rest.1))
  {
    var it := visit[0];
    assert forall x :: x in visit ==> x == it || x in visit[1..];
    assert ItemsOf([Entry(it.id, it.title, None)] + rest.0) == [it] + ItemsOf(rest.0);
  }

  lemma DistinctTail(visit: seq<Item>)
    requires |visit| > 0 && DistinctItemIds(visit)
    ensures DistinctItemIds(visit[1..])
    ensures forall x :: x in visit[1..] ==> x.id != visit[0].id
  {
    forall x | x in visit[1..] ensures x.id != visit[0].id {
      var k :| 0 <= k < |visit[1..]| && visit[1..][k] == x;
      assert visit[k + 1] == x;
    }
    forall j, k | 0 <= j < |visit[1..]| && 0 <= k < |visit[1..]| && j != k
      ensures visit[1..][j].id != visit[1..][k].id
    {
      assert visit[1..][j] == visit[j + 1] && visit[1..][k] == visit[k + 1];
    }
  }

  /** When the visited ids are distinct, so are the accepted ones, and none of them is also rejected. */
  lemma {:induction false} VisitDistinct(visit: seq<Item>, saved: set<Id>, cfg: Config)
    requires DistinctItemIds(visit)
    ensures var r := Visit(visit, saved, cfg);
      DistinctIds(r.0) && Ids(r.0) !! r.1
    decreases |visit|
  {
    if |visit| > 0 {
      var it := visit[0];
      DistinctTail(visit);
      VisitDistinct(visit[1..], saved, cfg);
      var rest := Visit(visit[1..], saved, cfg);
      forall x | x in rest.0 ensures x.id != it.id {
        assert ItemOf(x) in visit[1..];
      }
      if it.id !in saved && !(Ignored(cfg.ignore, it.title) || |it.title| > cfg.maxLen) {
        forall id | id in rest.1 ensures id != it.id {
          var y :| y in visit[1..] && y.id == id && Rejected(cfg, y);
        }
        DistinctCons(Entry(it.id, it.title, None), rest.0, rest.1);
      }
    }
  }

  /** Putting in front an entry whose id is new and not rejected keeps the ids distinct and apart from the rejected ones. */
  lemma DistinctCons(e: Entry, rest: seq<Entry>, rejected: set<Id>)
    requires DistinctIds(rest) && Ids(rest) !! rejected
    requires forall x :: x in rest ==> x.id != e.id
    requires e.id !in rejected
    ensures DistinctIds([e] + rest) && Ids([e] + rest) !! rejected
  {
    var r := [e] + rest;
    forall j, k | 0 <= j < |r| && 0 <= k < |r| && j != k ensures r[j].id != r[k].id {
      if j > 0 && k > 0 {
        assert r[j] == rest[j - 1] && r[k] == rest[k - 1];
      } else if j == 0 {
        assert r[k] in rest;
      } else {
        assert r[j] in rest;
      }
    }
  }

  lemma SubseqSkip(a: seq<Item>, b: seq<Item>)
    requires |b| > 0 && Subseq(a, b[1..])
    ensures Subseq(a, b)
  {
  }

  /** The result of reading the feed: the new entries and the feed with its `done` set updated. */
  datatype Poll = Poll(found: seq<Entry>, feed: Feed)

  /**
   * `entries`: the parsed items are visited oldest first (in reverse); one
   * already saved is passed over, an ignored or over-long one is added to
   * `done`, and any other becomes a new entry with only an id and a title.
   */
  function Entries(f: Feed, cfg: Config, items: seq<Item>): (p: Poll)
    ensures p.feed.todo == f.todo
    ensures f.done <= p.feed.done
    ensures forall e :: e in p.found ==>
      && e.id !in Saved(f) && e.to.None? && ItemOf(e) in items
      && |e.title| <= cfg.maxLen && !Ignored(cfg.ignore, e.title)
    ensures forall id :: id in p.feed.done - f.done ==>
      id !in Saved(f) && exists it :: it in items && it.id == id && Rejected(cfg, it)
    ensures forall it :: it in items && it.id !in Saved(f) ==>
      if Rejected(cfg, it) then it.id in p.feed.done else Entry(it.id, it.title, None) in p.found
    ensures Subseq(ItemsOf(p.found), Reverse(items))
  {
    var visit := Reverse(items);
    assert forall it :: it in items <==> it in visit by {
      forall it | it in items ensures it in visit {
        var k :| 0 <= k < |items| && items[k] == it;
        assert visit[|items| - 1 - k] == it;
      }
    }
    var (found, rejected) := Visit(visit, Saved(f), cfg);
    Poll(found, Feed(f.todo, f.done + rejected))
  }

  lemma ReverseDistinct(items: seq<Item>)
    requires DistinctItemIds(items)
    ensures DistinctItemIds(Reverse(items))
  {
    var r := Reverse(items);
    forall j, k | 0 <= j < |r| && 0 <= k < |r| && j != k ensures r[j].id != r[k].id {
      assert r[j] == items[|items| - 1 - j] && r[k] == items[|items| - 1 - k];
    }
  }

  /** Fresh entries have distinct ids and are disjoint from the rejected ids, when the feed's ids are distinct. */
  lemma EntriesDistinct(f: Feed, cfg: Config, items: seq<Item>)
    requires DistinctItemIds(items)
    ensures var p := Entries(f, cfg, items);
      DistinctIds(p.found) && Ids(p.found) !! p.feed.done
  {
    ReverseDistinct(items);
    VisitDistinct(Reverse(items), Saved(f), cfg);
  }

  // ---------------------------------------------------------------------
  // Pacing
  // ---------------------------------------------------------------------

  /** `math.ceil` of a real. */
  function Ceil(x: real): (n: int)
    ensures x <= n as real < x + 1.0
  {
    -((-x).Floor)
  }

  /** Python's `int()` of a float: truncation toward zero. */
  function Trunc(x: real): (n: int)
    ensures x >= 0.0 ==> n as real <= x < n as real + 1.0
    ensures x < 0.0 ==> n as real - 1.0 < x <= n as real
  {
    if x >= 0.0 then x.Floor else -((-x).Floor)
  }

  /**
   * The pause computed after a fetch: the configured pause, unless more than
   * `queueSlice * 10` entries are queued, in which case the pause is divided
   * by `ceil(queued * queueSlice)` so that a slice of the queue is emitted
   * before the next fetch. `None` where that divisor is zero, which raises
   * `ZeroDivisionError` (a `queueSlice` of 0 with anything queued).
   */
  function AdaptivePause(queued: nat, cfg: Config): (p: Option<int>)
    ensures queued as real <= cfg.queueSlice * 10.0 ==> p == Some(cfg.pause)
    ensures queued as real > cfg.queueSlice * 10.0 ==>
      var c := Ceil(queued as real * cfg.queueSlice);
      && (p.None? <==> c == 0)
      && (c >= 1 && cfg.pause >= 0 ==> p.value * c <= cfg.pause < (p.value + 1) * c)
    ensures cfg.queueSlice > 0.0 ==> p.Some? && (cfg.pause >= 0 ==> 0 <= p.value <= cfg.pause)
    ensures cfg.queueSlice == 0.0 && queued > 0 ==> p.None?
  {
    if queued as real > cfg.queueSlice * 10.0 then
      var c := Ceil(queued as real * cfg.queueSlice);
      if c == 0 then None
      else
        var p := Trunc(cfg.pause as real / c as real);
        assert cfg.queueSlice > 0.0 ==> c >= 1 by {
          if cfg.queueSlice > 0.0 {
            assert queued as real > 0.0;
            assert queued as real * cfg.queueSlice > 0.0;
          }
        }
        if c >= 1 && cfg.pause >= 0 then
          FloorDivision(cfg.pause, c, p);
          Some(p)
        else
          Some(p)
    else
      Some(cfg.pause)
  }

  lemma MulStrict(x: real, y: real, z: real)
    requires x < y && z > 0.0
    ensures x * z < y * z
  {
  }

  lemma MulWeak(x: real, y: real, z: real)
    requires x <= y && z > 0.0
    ensures x * z <= y * z
  {
  }

  lemma RealOfProduct(x: int, y: int)
    ensures (x * y) as real == x as real * y as real
  {
  }

  /** Multiplying a two-sided bound on `a / c` through by a positive `c`. */
  lemma QuotientBounds(a: real, c: real, lo: real, hi: real)
    requires c > 0.0
    requires lo <= a / c < hi
    ensures lo * c <= a < hi * c
  {
    var q := a / c;
    assert q * c == a;
    MulWeak(lo, q, c);
    MulStrict(q, hi, c);
  }

  /** The truncated quotient of a non-negative pause brackets the pause between two multiples of the divisor. */
  lemma FloorDivision(a: int, c: int, p: int)
    requires a >= 0 && c >= 1
    requires p as real <= a as real / c as real < p as real + 1.0
    ensures p * c <= a < (p + 1) * c
    ensures 0 <= p <= a
  {
    QuotientBounds(a as real, c as real, p as real, (p + 1) as real);
    RealOfProduct(p, c);
    RealOfProduct(p + 1, c);
  }

  /** With a pause of 600 seconds, a slice of 0.3 and 20 queued entries the pause is 600 / ceil(6) = 100. */
  lemma PauseExample()
    ensures AdaptivePause(20, Config(600, 0.3, 140, "")) == Some(100)
  {
    assert Ceil(20.0 * 0.3) == 6;
  }

  // ---------------------------------------------------------------------
  // One pass of the feed loop, and processing
  // ---------------------------------------------------------------------

  /** The feed together with the loop's local state: the time of the last fetch and the current pause. */
  datatype Scheduler = Scheduler(feed: Feed, lastFeedTime: real, sleep: int)

  /** The configured pause has elapsed since the last fetch. */
  predicate ShouldPoll(s: Scheduler, cfg: Config, now: real) {
    (s.lastFeedTime + cfg.pause as real) - now <= 0.0
  }

  /**
   * One pass of `__iter__` at time `now`: when the pause has elapsed, take
   * `poll` (what `entries` returns for the current feed), queue its entries
   * at the tail and recompute the pause; then offer the head of the queue.
   * `None` when recomputing the pause divides by zero.
   */
  function Tick(s: Scheduler, cfg: Config, now: real, poll: Poll): (r: Option<(Scheduler, Option<Entry>)>)
    ensures r.None? <==> ShouldPoll(s, cfg, now) && AdaptivePause(|s.feed.todo| + |poll.found|, cfg).None?
    ensures r.Some? && !ShouldPoll(s, cfg, now) ==> r.value.0 == s
    ensures r.Some? && ShouldPoll(s, cfg, now) ==>
      && r.value.0.lastFeedTime == now
      && r.value.0.feed == Feed(s.feed.todo + poll.found, poll.feed.done)
      && Some(r.value.0.sleep) == AdaptivePause(|s.feed.todo| + |poll.found|, cfg)
    ensures r.Some? ==>
      var t := r.value.0.feed.todo;
      && |s.feed.todo| <= |t| && t[..|s.feed.todo|] == s.feed.todo
      && (r.value.1.Some? <==> |t| > 0)
      && (r.value.1.Some? ==> r.value.1.value == t[0])
  {
    if ShouldPoll(s, cfg, now) then
      var todo := s.feed.todo + poll.found;
      assert todo[..|s.feed.todo|] == s.feed.todo;
      match AdaptivePause(|todo|, cfg)
      case None => None
      case Some(pause) =>
        Some((Scheduler(Feed(todo, poll.feed.done), now, pause), if |todo| > 0 then Some(todo[0]) else None))
    else
      Some((s, if |s.feed.todo| > 0 then Some(s.feed.todo[0]) else None))
  }

  /**
   * A fetch after the pause never queues an id saved before it, only grows
   * `done`, and keeps the queue well formed, provided the feed lists every
   * id at most once (see `RepeatedIdQueuedTwice` for what happens otherwise).
   */
  lemma TickWithEntries(s: Scheduler, cfg: Config, now: real, items: seq<Item>)
    requires DistinctItemIds(items)
    requires QueueInv(s.feed)
    ensures var r := Tick(s, cfg, now, Entries(s.feed, cfg, items));
      r.Some? ==>
      var f := r.value.0.feed;
      && s.feed.done <= f.done
      && Saved(s.feed) <= Saved(f)
      && (forall k :: |s.feed.todo| <= k < |f.todo| ==> f.todo[k].id !in Saved(s.feed))
      && QueueInv(f)
  {
    var p := Entries(s.feed, cfg, items);
    EntriesDistinct(s.feed, cfg, items);
    if ShouldPoll(s, cfg, now) {
      AppendFresh(s.feed, p.found, p.feed.done);
    }
  }

  /**
   * `entries` checks each item against the ids saved before the loop only,
   * so an id the feed lists twice is queued twice (and would be posted twice,
   * as `process` removes only the head).
   */
  lemma RepeatedIdQueuedTwice(f: Feed, cfg: Config, it: Item)
    requires it.id !in Saved(f) && !Rejected(cfg, it)
    ensures var e := Entry(it.id, it.title, None);
      Entries(f, cfg, [it, it]).found == [e, e]
    ensures !DistinctIds(Entries(f, cfg, [it, it]).found)
  {
    var e := Entry(it.id, it.title, None);
    assert Reverse([it, it]) == [it, it];
    assert [it, it][1..] == [it];
    assert [it][1..] == [];
    assert Visit([it], Saved(f), cfg).0 == [e];
    assert Entries(f, cfg, [it, it]).found == [e, e];
    var found := Entries(f, cfg, [it, it]).found;
    assert found[0].id == found[1].id;
  }

  /** Appending distinct entries whose ids were not saved, and growing `done` only by unsaved ids, keeps the queue well formed. */
  lemma AppendFresh(f: Feed, found: seq<Entry>, done: set<Id>)
    requires QueueInv(f)
    requires DistinctIds(found) && Ids(found) !! done
    requires forall e :: e in found ==> e.id !in Saved(f)
    requires f.done <= done && forall id :: id in done - f.done ==> id !in Saved(f)
    ensures QueueInv(Feed(f.todo + found, done))
    ensures forall k :: |f.todo| <= k < |f.todo + found| ==> (f.todo + found)[k].id !in Saved(f)
  {
    var todo := f.todo + found;
    var n := |f.todo|;
    forall k | n <= k < |todo| ensures todo[k].id !in Saved(f) {
      assert todo[k] == found[k - n];
    }
    forall j, k | 0 <= j < |todo| && 0 <= k < |todo| && j != k ensures todo[j].id != todo[k].id {
      if j < n && k < n {
      } else if j >= n && k >= n {
        assert todo[j] == found[j - n] && todo[k] == found[k - n];
      } else if j < n {
        assert todo[j].id in Saved(f);
      } else {
        assert todo[k].id in Saved(f);
      }
    }
    forall id | id in Ids(todo) ensures id !in done {
      var e :| e in todo && e.id == id;
      if e in f.todo {
        assert id in Ids(f.todo);
        assert id in Saved(f);
      } else {
        assert e in found;
        assert id in Ids(found);
      }
    }
  }

  /**
   * `process`: the head of the queue is popped and its id added to `done`.
   * The rest of the queue keeps its order and the set of saved ids does not change.
   */
  function Process(f: Feed): (r: Feed)
    requires |f.todo| > 0
    ensures r.todo == f.todo[1..]
    ensures f.done <= r.done && f.todo[0].id in r.done && |r.done - f.done| <= 1
    ensures Saved(r) == Saved(f)
  {
    var r := Feed(f.todo[1..], f.done + {f.todo[0].id});
    assert Ids(f.todo) == Ids(f.todo[1..]) + {f.todo[0].id} by {
      assert f.todo == [f.todo[0]] + f.todo[1..];
    }
    r
  }

  /** Processing keeps the queue well formed, and the processed id is no longer queued. */
  lemma ProcessKeepsQueueInv(f: Feed)
    requires |f.todo| > 0 && QueueInv(f)
    ensures QueueInv(Process(f))
    ensures f.todo[0].id !in Ids(Process(f).todo)
  {
    DropFirst(f.todo);
  }

  /** The tail of a queue with distinct ids has distinct ids, none of them the head's, all of them the queue's. */
  lemma DropFirst(es: seq<Entry>)
    requires |es| > 0 && DistinctIds(es)
    ensures DistinctIds(es[1..]) && es[0].id !in Ids(es[1..]) && Ids(es[1..]) <= Ids(es)
  {
    var r := es[1..];
    forall j, k | 0 <= j < |r| && 0 <= k < |r| && j != k ensures r[j].id != r[k].id {
      assert r[j] == es[j + 1] && r[k] == es[k + 1];
    }
    forall e | e in r ensures e.id != es[0].id && e in es {
      var k :| 0 <= k < |r| && r[k] == e;
      assert es[k + 1] == e;
    }
  }

  /** An entry once processed is never read from the feed again, whatever the feed returns. */
  lemma ProcessedNeverRequeued(f: Feed, cfg: Config, items: seq<Item>)
    requires |f.todo| > 0
    ensures forall e :: e in Entries(Process(f), cfg, items).found ==> e.id != f.todo[0].id
  {
  }
}
