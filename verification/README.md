# babbler in Dafny

babbler is a Twitter bot. It reads an RSS feed and queues new entries. It
answers mentions with replies produced by an Eliza-style responder. Each
queued entry is posted with hashtags chosen by a tagger that scores
candidate words. Its command-line options can be appended to or subtracted
from configured defaults. This project models the pure logic of that bot
as Dafny datatypes and functions, and proves properties of it.

- `Wrappers`: `Option`.
- `Text`: the Python string operations the bot uses (`lower`, `split`,
  `split(",")`, `strip`, `lstrip`, `ljust`, `find`, `replace`, character
  filtering), with their contracts and the split/join round trips.
- `Sorting`: `sorted(..., key=..., reverse=True)` as an insertion sort that
  keeps equal keys in their original order.
- `Sequences`: `reversed`, the subsequence order, and the elements picked by a
  list of flags.
- `Tagging`: `Tagger` (babbler/tagging.py): tokenising, the candidate
  tags of a word, the best-scoring candidate, and the sorted tag list.
  The scorer is a function parameter.
- `Feeds`: `Feed` (babbler/feed.py): the saved ids, filtering of new
  entries, one tick of the polling generator with its adaptive pause, and
  `process`.
- `Responder`: `RespondingFeed` (babbler/responder.py): `translate`,
  `response` and the mention loop of `entries`. The regular-expression match
  and `random.choice` are parameters: a matcher that returns the groups,
  and a template index.
- `Bot`: tweet composition, the tag loop (shared with the 0.1 script), the
  done rule of `Bot.run`, and
  the migration of stored data (babbler/bot.py).
- `Options`: `append`, `subtract`, the precedence in `parse_args` and the
  listing in `__str__` (babbler/options.py).
- `Script`: the 0.1 script babbler.py: its dictionary filter and one
  round of its main loop.

Some outside facts enter as parameters:
- the clock (`now`);
- the parsed feed and the list of mentions;
- the outcome of posting a tweet;
- the Twitter search (`popular`);
- the line typed at a prompt (`answer`).

Where Python raises, the model returns an explicit failure value:
`None`, `Raised`, `Failed`, `Stuck`, `Crash` or `Crashed`.

Three places where the code differs from its docstrings; the model follows
the code:
- `possible_for_index` (babbler/tagging.py:36-41) adds the previous-word
  and next-word combinations whenever the neighbour exists, even when it is
  a stopword. Only the three-word combination checks stopwords.
- The dictionary check in `tags` (babbler/tagging.py:91-92) removes
  apostrophes but keeps a possessive `s`: `dog's` is looked up as `dogs`.
- The migration in `Bot.__init__` (babbler/bot.py:39-48) raises `KeyError`
  when stored data holds neither `todo` nor `feed`. `Bot.Migrate` returns
  `None` there.

## Model

| member | source | states |
|---|---|---|
| Text.Lower | babbler/tagging.py:92 | `str.lower` keeps the length and lower-cases each character |
| Text.Keep | babbler/tagging.py:86-87 | the kept characters are exactly the input's characters that pass the test |
| Text.Remove | babbler/tagging.py:46 | `replace(c, "")` leaves no `c` and keeps every other character present |
| Text.IndexOf | babbler/responder.py:105 | `find` returns the first position of the character, or the length when the character is absent |
| Text.Words | babbler/tagging.py:87 | `split()` gives non-empty words without whitespace |
| Text.WordsAroundSpace | babbler/tagging.py:86-87 | a space splits a text into the words of the two halves |
| Text.WordsOfJoin | babbler/responder.py:125 | splitting a space-joined list of words gives the list back |
| Text.Join | babbler/responder.py:125 | joining no items gives the empty text; otherwise the length is the items' lengths plus one separator between each two (with WordsOfJoin and SplitOfJoin, splitting gives the items back) |
| Text.SplitOn | babbler/feed.py:51 | `split(",")` gives at least one item, and no item holds the separator |
| Text.SplitOfJoin | babbler/options.py:53 | splitting undoes `",".join` for items without the separator |
| Text.SplitOnConcat | babbler/options.py:39-41 | splitting `a + "," + b` gives the items of `a` followed by those of `b` |
| Text.LStrip | babbler/responder.py:56 | `lstrip(c)` removes exactly the leading run of `c` |
| Text.Strip | babbler.py:97 | `strip()` gives the text between a whitespace-only prefix and a whitespace-only suffix, and the result has no whitespace at either end |
| Text.StripPadded | babbler.py:97 | stripping whitespace padding from around a text with non-whitespace ends gives that text back |
| Text.LJust | babbler/options.py:95 | `ljust` pads to the width with the fill character and keeps the text as a prefix |
| Sequences.Reverse | babbler/feed.py:45 | `reversed` keeps the length and puts the element at `k` at `len - 1 - k` |
| Sorting.Insert | babbler/tagging.py:107 | inserting into a sorted list keeps it sorted and adds exactly the element |
| Sorting.SortDesc | babbler/tagging.py:107 | the result is in non-increasing key order and is a permutation of the input |
| Sorting.SortStable | babbler.py:122 | sorting is stable: the elements of each key come out in their original order |
| Sorting.SortPairwise | babbler/tagging.py:107 | sorting keeps any property that holds between every two elements |
| Tagging.Tokenize | babbler/tagging.py:86-87 | tokens are non-empty and hold only letters, digits and apostrophes; a text made only of such characters is one token; a text with no such character has no tokens |
| Tagging.SeparatorsSplit | babbler/tagging.py:86 | a dash, a slash or a space separates tokens: the tokens of `a-b` are those of `a` then those of `b` |
| Tagging.OtherCharsDropped | babbler/tagging.py:86-87 | any other character is dropped without separating: the tokens of `a` `c` `b` are those of `a` `b` |
| Tagging.Singular | babbler/tagging.py:33-34 | the result is a prefix of the word; it differs from the word exactly when the word ends in `'s`, in any case, and then it is the word without those two characters |
| Tagging.PossibleForIndex | babbler/tagging.py:22-46 | 1 to 4 candidates; the first is the word made singular without apostrophes; none holds an apostrophe; one more for each existing neighbour, and one for both neighbours when neither is a stopword |
| Tagging.NeighbourCandidates | babbler/tagging.py:28-44 | the previous-word and next-word combinations appear whenever the neighbour exists, stopword or not; the three-word one exactly when both neighbours exist and neither is a stopword |
| Tagging.BestFrom | babbler/tagging.py:53-61 | the high score only grows and bounds the score of every long-enough candidate scanned |
| Tagging.BestFromFirst | babbler/tagging.py:59-61 | a raised high score belongs to the first candidate that reaches it |
| Tagging.BestWithScore | babbler/tagging.py:48-62 | `(None, 0)` exactly when no long-enough candidate scores above 0; otherwise the first long-enough candidate with the strictly greatest score, and that score |
| Tagging.BestFromIgnoresShortCandidates | babbler/tagging.py:56-57 | scanning gives the same result under two scorers that agree on long-enough candidates |
| Tagging.ScorerConsultedOnlyWhenLongEnough | babbler/tagging.py:56-57 | the scorer is consulted only on candidates of at least the minimum length |
| Tagging.ChooseFor | babbler/tagging.py:90-105 | one word adds at most one tag, one of its own candidates, and keeps the chosen tags pairwise different ignoring case |
| Tagging.Choose | babbler/tagging.py:90-105 | the loop over all words keeps the chosen tags long enough, positively scored and pairwise different ignoring case |
| Tagging.Tags | babbler/tagging.py:64-109 | every tag is long enough and scores above 0; no two tags are equal ignoring case; the tags are in non-increasing score order |
| Tagging.TagsAreChosen | babbler/tagging.py:107 | the returned tags are a permutation of the tags the loop chose |
| Tagging.SortedStaysGood | babbler/tagging.py:107 | sorting by score keeps the chosen tags distinct ignoring case and orders them by score |
| Tagging.MultisetOfTags | babbler/tagging.py:107 | permuting scored tags permutes their tag texts |
| Tagging.SkippedWordContributesNothing | babbler/tagging.py:91-92 | an all-digit word, or one whose lower-cased form without apostrophes is a dictionary word, adds no tag |
| Tagging.UsedWordContributesNothing | babbler/tagging.py:96-99 | a word with any candidate equal, ignoring case, to a chosen tag adds no tag |
| Tagging.FreshWordContributesBest | babbler/tagging.py:100-105 | otherwise the word adds the best-scoring candidate, if any scores above 0 |
| Feeds.Saved | babbler/feed.py:29-30 | an id is saved exactly when it is in `done` or is the id of a queued entry |
| Feeds.Visit | babbler/feed.py:45-62 | every unsaved item is rejected into `done` or becomes a new entry; new entries are unsaved, unrejected and in feed order; rejected ids come from rejected items |
| Feeds.VisitDistinct | babbler/feed.py:45-62 | given a feed that lists every id at most once, new entries have distinct ids and none of them is rejected |
| Feeds.Entries | babbler/feed.py:32-63 | `entries` leaves the queue alone and only adds to `done`; it finds exactly the unsaved items that are neither ignored nor too long, oldest first |
| Feeds.EntriesDistinct | babbler/feed.py:44-62 | given a feed that lists every id at most once, the found entries have distinct ids, none of them in `done` |
| Feeds.RepeatedIdQueuedTwice | babbler/feed.py:44-62 | an unsaved, accepted item that the feed lists twice is found twice, so the found ids are not distinct |
| Feeds.ProcessedNeverRequeued | babbler/feed.py:96-100 | after `process`, the next poll never finds the processed entry again |
| Feeds.Ceil | babbler/feed.py:87 | `ceil` is the least integer not below its argument |
| Feeds.Trunc | babbler/feed.py:88 | `int()` on a float truncates toward zero |
| Feeds.AdaptivePause | babbler/feed.py:85-88 | the configured pause when the queue is short; otherwise the pause divided by `ceil(len * queue_slice)` and truncated, never above the configured pause; a zero `queue_slice` with a long queue raises `ZeroDivisionError` |
| Feeds.FloorDivision | babbler/feed.py:88 | a truncated quotient of non-negative numbers is the integer floor quotient |
| Feeds.PauseExample | babbler/feed.py:85-88 | a 600-second pause with 20 queued and a 0.3 slice gives 100 seconds |
| Feeds.Tick | babbler/feed.py:71-94 | without a poll nothing changes; with one, the new entries are appended behind the queue, the fetch time is the current time and the pause is `AdaptivePause` of the new queue length, failing exactly when that raises; the queue's old contents stay its prefix; the yielded entry is the queue's head |
| Feeds.TickWithEntries | babbler/feed.py:75-80 | given a feed that lists every id at most once, a tick that polls keeps the queue's ids distinct and disjoint from `done`, only adds to `done`, and queues only unsaved entries |
| Feeds.Process | babbler/feed.py:96-100 | the head leaves the queue and its id, and nothing else, joins `done`; the saved set is unchanged |
| Feeds.ProcessKeepsQueueInv | babbler/feed.py:96-100 | `process` keeps the queue's ids distinct and disjoint from `done`; the processed id is no longer queued |
| Responder.WordsOfLower | babbler/responder.py:119 | the words of the lower-cased text are the lower-cased words |
| Responder.Translate | babbler/responder.py:115-125 | `translate` brings in nothing but spaces, characters of the lower-cased text and characters of reflections |
| Responder.TranslateWordForWord | babbler/responder.py:115-125 | when every reflection is a single word (`WordValues`), `translate` keeps the word count and gives, word for word, the reflection of the lower-cased word or that word |
| Responder.TranslateNoPercent | babbler/responder.py:115-125 | `translate` brings in no `%` that neither its input nor a reflection holds |
| Responder.Substitute | babbler/responder.py:104-109 | (corrected) a template without `%` is returned unchanged; with clean groups the result holds no `%` |
| Responder.OnePass | babbler/responder.py:105-109 | one pass of the loop splices the named group over the first `%k`, or fails when the group is absent or took no part |
| Responder.Scan | babbler/responder.py:105-108 | one pass of the loop as written is done exactly when the text has no `%`; it raises exactly when the first `%` ends the text, is followed by a non-digit, or names a group that is absent or took no part |
| Responder.SubstituteAsWritten | babbler/responder.py:104-109 | the loop as written finishes only with a text free of `%`, finishes at once on a text without `%`, and is unfinished when no pass is left |
| Responder.AsWrittenNoPlaceholder | babbler/responder.py:105-107 | the loop stops on a text without `%` |
| Responder.AsWrittenBadPlaceholder | babbler/responder.py:108 | a `%` with no digit after it raises |
| Responder.AsWrittenAgrees | babbler/responder.py:104-109 | when no group holds a `%`, the loop as written ends exactly as the single-pass substitution |
| Responder.RescanNeverFinishes | babbler/responder.py:104-109 | template `%1` with group 1 capturing `a%1` never finishes, while the single pass gives `a%1` |
| Responder.RescanLoops | babbler/responder.py:104-109 | every pass turns `x%d` into `xa%d` when group `d` captured `a%d` |
| Responder.PercentInCaptureRaises | babbler/responder.py:104-109 | `I am 50% off` under `I am (.*)` with template `%1`: the loop as written raises on the `%` it spliced in, while the single pass answers `50% off` |
| Responder.TrailingPunct | babbler/responder.py:111 | the length of the trailing punctuation run: all punctuation, and preceded by a non-punctuation character |
| Responder.TrimPunctuation | babbler/responder.py:111-112 | the text without its trailing punctuation, followed by its last character when that was punctuation |
| Responder.TrimKeepsText | babbler/responder.py:111-112 | at most one punctuation character is left at the end; the text before the run and the final character are kept |
| Responder.TrimIdempotent | babbler/responder.py:111-112 | trimming twice is trimming once |
| Responder.TrimExamples | babbler/responder.py:111-112 | `hello..` becomes `hello.` and `hello.` stays |
| Responder.FirstMatch | babbler/responder.py:99-101 | the first matching rule, or none exactly when no rule matches |
| Responder.Response | babbler/responder.py:95-113 | no response exactly when no pattern matches; for the first matching pattern, a rule with no templates raises, and otherwise the template chosen by `pick` decides: the response raises exactly when its substitution fails, and is otherwise the substituted text with trailing punctuation trimmed, which ends in at most one punctuation character (corrected single-pass substitution) |
| Responder.ResponseVerbatim | babbler/responder.py:95-113 | when the first matching pattern's chosen template has no `%`, the response is that template with trailing punctuation trimmed |
| Responder.ResponseOnePlaceholder | babbler/responder.py:102-112 | a chosen template `p%dq` with a single placeholder answers `p`, the translated group `d`, then `q`, trimmed, and raises when group `d` is absent or took no part in the match |
| Responder.SubstituteOne | babbler/responder.py:104-109 | a template with a single placeholder `%d` gets group `d` in its place, and fails when that group is absent or took no part |
| Responder.LaterRulesIgnored | babbler/responder.py:99-101 | once a rule matches, rules after it change nothing |
| Responder.NoPercentInResponse | babbler/responder.py:104-113 | with no `%` in the captured texts and reflections, a response holds no `%` |
| Responder.Retry | babbler/responder.py:67-79 | the outcome is that of the first of three attempts whose response raises or fits once prefixed with the sender, and `NoMatch` when none does; a reply returned fits (responses use the corrected substitution) |
| Responder.RetryFrom | babbler/responder.py:67-79 | from a given attempt on, the outcome is that of the first attempt that raises or fits, `NoMatch` when none does |
| Responder.RetryFirstFitting | babbler/responder.py:67-79 | when attempt `k` is the first that raises or fits, the retry loop gives its response |
| Responder.AtMostThreeAttempts | babbler/responder.py:67-79 | only the first three template choices matter |
| Responder.AnswerTo | babbler/responder.py:51-85 | a mention is passed over exactly when it replies to no one or is saved; refused exactly when it is not a direct reply or holds a link; otherwise it raises exactly when the retry loop raises, gets nothing exactly when the loop finds no response, and else is answered with the loop's text, to its sender, under the mention's id, within the limit (corrected substitution) |
| Responder.Mentions | babbler/responder.py:50-85 | the loop raises exactly when answering some mention raises; otherwise it only adds to `done` and finds at most one entry per mention (corrected substitution) |
| Responder.MentionsSound | babbler/responder.py:50-85 | every id the loop adds to `done` is that of a refused mention, and every entry found answers an answerable mention |
| Responder.MentionsComplete | babbler/responder.py:50-85 | unless the loop raised, every refused mention's id is in `done` and every reply built is among the entries found; with MentionsSound, `done` gains exactly the refused mentions |
| Responder.SkippedMention | babbler/responder.py:51 | a mention replying to no one, or already saved, leaves no trace |
| Responder.SpamMentionDone | babbler/responder.py:56-62 | a mention that is not a direct reply, or that holds a link, goes to `done` and yields no entry |
| Responder.RespondingEntries | babbler/responder.py:42-88 | nothing is returned exactly when answering some mention raises; otherwise the entries found are the replies of the mention loop followed by the feed's new entries, read against `done` as the mention loop left it, and the feed is the one that read leaves; answers come before feed entries; answers fit the limit and are unsaved; feed entries satisfy the feed's filter; the queue is untouched and `done` only grows (corrected substitution) |
| Responder.AnswersFirst | babbler/responder.py:88 | putting the answers in front of the feed entries keeps every answer before every feed entry |
| Bot.Compose | babbler/bot.py:90-97 | a reply is the sender, a space and the title, and replies to the mention's id; a feed entry is its title and replies to nothing |
| Bot.AppendTags | babbler/bot.py:98-103 | the tag loop: the result is the tweet followed by exactly those tags, in order, that the test accepts for the tweet as it stands at their turn; with a test that keeps within the limit, a tweet within it stays within it and one past it gets nothing |
| Bot.AddTags | babbler/bot.py:98-103 | the result is the tweet followed by ` #tag` for exactly those tags, in the tagger's order, that fit the limit and whose `#tag` the tweet as it stands at their turn does not hold, ignoring case; a tweet within the limit stays within it, and one past it gets nothing |
| Bot.PresentTagSkipped | babbler/bot.py:100-103 | a tag whose `#tag` the tweet already holds, ignoring case, is passed over |
| Bot.FullTweetGetsNoTags | babbler/bot.py:101 | a tweet with no room left gets no tag |
| Bot.RunStep | babbler/bot.py:89-118 | the tweet is the composed text followed by the tagger's tags for the title that pass the tag loop, and replies to the same status; it fits when the text fits; the entry is processed exactly when the run was dry, the post succeeded, or the error was a duplicate status |
| Bot.FailedPostRetried | babbler/bot.py:105-113 | a post failing for any other reason leaves the entry queued |
| Bot.RunStepKeepsQueueInv | babbler/bot.py:113-116 | whatever the post did, the queue stays well formed, `done` only grows and the saved set is unchanged |
| Bot.Migrate | babbler/bot.py:39-48 | the 0.1 `todo`/`done` pair, or else the stored feed, is carried over with its contents; missing keys fail |
| Bot.MigrateIdempotent | babbler/bot.py:44-48 | migrating migrated data changes nothing |
| Options.Unmarked | babbler/options.py:39 | a leading comma marks a continuation and is not an item |
| Options.Append | babbler/options.py:32-41 | with no value or no default the value stands; otherwise it raises exactly when the types clash (an integer value or default for a string option, a string with an integer for another option); for a string option the value follows the default after one comma; other options add integers and concatenate strings |
| Options.AppendItems | babbler/options.py:39-41 | appending to a string default gives the default's items followed by the value's items |
| Options.Difference | babbler/options.py:50-53 | an item is kept exactly when the default has it and the value does not; each is kept once |
| Options.Subtract | babbler/options.py:43-55 | with no value or no default the value stands; a string option raises exactly when the value is an integer or comma-led, or the default is an integer; other options subtract integers and raise otherwise |
| Options.SubtractItems | babbler/options.py:50-53 | subtracting from a string default reads back as exactly the default's items the value does not name, or the empty string when none is left |
| Options.Resolve | babbler/options.py:71-84 | raising is possible only for an appendable option, with a switch given, a command-line value and a default; with no command-line value the result is the default, else the prompt's answer; an option that is not combined keeps its command-line value; an appendable option under a switch fails exactly when appending (if the append switch is given) or else subtracting raises, and otherwise settles on that combined value |
| Options.SubtractModeRemovesItems | babbler/options.py:77-80 | under the subtract switch alone, a plain string value takes its items out of a string default's items |
| Options.SubtractModeNumbers | babbler/options.py:77-80 | under the subtract switch alone, a non-string option subtracts integers and fails when an integer meets a string |
| Options.AppendBeforeSubtract | babbler/options.py:76-80 | with both switches given, appending wins and subtracting is not done |
| Options.PromptOnlyWhenUnset | babbler/options.py:81-84 | the prompt's answer is used exactly when there is neither a command-line value nor a default |
| Options.ParseArgs | babbler/options.py:70-86 | `parse_args` fails exactly when settling some option raises, and otherwise stores a value under exactly the options' destinations |
| Options.LastWins | babbler/options.py:85 | the last option with a destination decides its stored value |
| Options.Decimal | babbler/options.py:97 | an integer prints as a non-empty run of digits that reads back as the integer, with no leading zero |
| Options.Longest | babbler/options.py:93 | the longest key's length bounds every key and is reached by one |
| Options.Lines | babbler/options.py:94-97 | one line per declared option, in declaration order |
| Options.Format | babbler/options.py:88-98 | the listing fails exactly when there is no key or an option has no stored value; otherwise, when no name or value holds a newline, it splits at newlines into one line per option, each the name, a colon, dots to five past the longest key, a space and the value |
| Options.LinesAligned | babbler/options.py:93-97 | with room for every name and its colon, every line puts its value after the same column |
| Options.LineLayout | babbler/options.py:95-97 | a line is the name, a colon, dots to the padding, a space and the value |
| Options.FormatLines | babbler/options.py:98 | splitting the joined lines at newlines gives them back when no name or value holds a newline |
| Script.Dictionary | babbler.py:96-97 | a word is in the dictionary exactly when a line starting with a lowercase letter gives it, stripped and without apostrophes |
| Script.NameLineIgnored | babbler.py:97 | a line not starting with a lowercase letter adds nothing |
| Script.Chars | babbler.py:118-119 | the characters left are exactly the lower-cased title's letters, digits and spaces, all lowercase |
| Script.CharsAppend | babbler.py:118-119 | the filter works character by character: it distributes over concatenation |
| Script.CharsOne | babbler.py:118-119 | one character is lower-cased and kept when a letter, digit or space, and dropped otherwise |
| Script.CharsOfClean | babbler.py:118-119 | a text already of lowercase letters, digits and spaces is left as it is |
| Script.FilterWanted | babbler.py:120-121 | the words kept are those not in the dictionary and long enough, in their order, each as often as it occurs |
| Script.Candidates | babbler.py:118-121 | the candidates are the words of the title's kept characters that are not in the dictionary and are long enough, each as often as the title has it; each is a non-empty run of lowercase letters and digits (integer minimum; see Findings) |
| Script.CandidatesAsWritten | babbler.py:118-121 | with the minimum as stored (an integer default, or the text of a command-line value, babbler.py:39-41), a word is a candidate exactly when it is a word of the kept characters, not in the dictionary, and passes Python 2's `>=` against that minimum |
| Script.TextMinimumKeepsNoWord | babbler.py:120-121 | a minimum given on the command line is kept as a string (babbler.py:39-41, 86-89), and then no title has any candidate |
| Script.IntMinimumAgrees | babbler.py:120-121 | with an integer minimum, as the default 3 is, the candidates as written are those of Script.Candidates |
| Script.LongestFirst | babbler.py:122 | the candidates are permuted into non-increasing length order, and candidates of one length keep their title order |
| Script.AddPopular | babbler.py:122-126 | the result is the title followed by ` #tag` for exactly those tags, in order, that keep the tweet within the limit at their turn and that the search finds; it stays within the limit |
| Script.UnusedTagSkipped | babbler.py:124-125 | a tag the search does not find is never appended |
| Script.Oldest | babbler.py:104-108 | the loop over the reversed feed stops at the oldest entry neither recorded nor too long |
| Script.Step | babbler.py:104-131 | a round posts exactly when some entry is fresh; then the oldest fresh entry is recorded with its untagged title and posted within the limit, followed by those of its candidates, longest first, that pass the tag loop; otherwise nothing changes |
| Script.AtMostOnePost | babbler.py:110-131 | a round keeps every earlier record and records at most one new id |
| Script.PostingUsesUpFresh | babbler.py:104-131 | each posting round leaves fewer fresh entries, so rounds over one feed post at most as many tweets as it has fresh entries |

## Left out

- Network, disk and terminal: feedparser, the Twitter API, pickling the data file, logging, `print`, `sleep` and `raw_input`. Their results are parameters.
- Daemonising, `kill`, `hashtag_score`, the option set-up in `Bot.__init__` and the Api construction are not part of this model.
- Regular-expression matching is an oracle that returns the groups of a match. `random.choice` is a template index chosen by the caller.
- `Tagger.__init__` reads the dictionary and stopword files. Both are set parameters here.
- The options themselves are given as a sequence in `all_options` order, and the parsed values as a map. `OptionParser`, `group` and `all_options` are not modelled.
- Character classes (`isalnum`, `islower`, `lower`, whitespace) cover ASCII only. Python applies them to all of Unicode.
- Tagging.Tags: tags with equal scores come out in the order they were chosen. Python sorts `tags.keys()`, whose order is the dictionary's hash order.
- Options.Subtract: the remaining items are joined in order of their first appearance in the default. Python joins them in set iteration order, which is unspecified.
- Options.ParseArgs: the same help text gets the same answer at the prompt.
- Options.Val: holds strings and integers only. Float and boolean option values, such as `queue_slice` and `dry_run`, are not modelled; the combining rules only tell strings from other types.
- Responder.Response: uses the corrected single-pass substitution, and so does everything built on it (Retry, AnswerTo, Mentions, RespondingEntries). Where the loop as written raises or never ends (see Findings), the model answers as the single pass does.
- Responder.TranslateWordForWord: requires every reflection to be a single word. A reflection such as `you would` adds a word.
- Feeds.VisitDistinct: assumes the feed lists every id at most once. The code checks items only against the ids saved before its loop, so a repeated id is queued twice (Feeds.RepeatedIdQueuedTwice).
- Feeds.EntriesDistinct: assumes the feed lists every id at most once, as for Feeds.VisitDistinct.
- Feeds.TickWithEntries: assumes the feed lists every id at most once, as for Feeds.VisitDistinct.
- Options.Format: takes the stored keys as a list.
- Script.Candidates: takes the minimum hashtag length as an integer, as the default 3 is. A value given on the command line stays a string, and then no word is kept (see Findings: Script.TextMinimumKeepsNoWord); Script.Step uses the integer form.
- Script.Dictionary: requires non-empty lines, as file iteration never yields an empty one.
- Feeds.AdaptivePause: `queue_slice` is an exact real rather than a float, and the clock is a real number.
- Responder.SubstituteAsWritten: the loop as written is bounded by a fuel count. Running out of fuel is the `Unfinished` outcome, which stands for a loop that does not end.
- Script.Step: the round does not model the save of the data file or the `PostUpdate` call, whose failure would end the 0.1 script.
- Bot.Migrate: every stored feed is taken to be a `Feed`. The `isinstance` test is always true for the feeds babbler stores.

## Findings

| source | as written | input that shows it | evidently intended | confidence | as-written member | corrected member |
|---|---|---|---|---|---|---|
| babbler/responder.py:104-109 | After each substitution the loop searches the whole response again for `%`. A `%k` brought in by a captured text is then substituted too. | Template `%1`, with group 1 capturing `a%1` (a mention like `I feel a%1` matched by `I feel (.*)`) and no reflection for it. The passes give `a%1`, `aa%1`, `aaa%1`, …, and the loop never ends. | Each placeholder of the template is replaced once, reading the template from left to right. Substituted text is not scanned again. | not executed | Responder.RescanNeverFinishes | Responder.Substitute |
| babbler/responder.py:104-109 | The same rescan takes a `%` that a captured text brings in for a placeholder, and calls `int` on the character after it. | `I am 50% off` matched by `I am (.*)`, with template `%1` and no reflections. The first pass gives `50% off`; the second reads ` ` after the `%`, and `int(' ')` raises `ValueError`. The exception leaves `entries`, so the mention never reaches `done` and is tried again on every run. | As above: the single pass answers `50% off`. | not executed | Responder.PercentInCaptureRaises | Responder.Substitute |
| babbler.py:39-41 | `--hashtag-length-min` is declared without `type=`, so a value given on the command line is stored as a string. The test `len(w) >= options["hashtag_len_min"]` then (babbler.py:121) compares an integer with a string, which Python 2 orders integers-first. | `--hashtag-length-min 5`: for every word `len(w) >= "5"` is false, so no title ever gets a hashtag. | The minimum is read as an integer, as the default 3 is, and words at least that long are kept. | not executed | Script.TextMinimumKeepsNoWord | Script.Candidates |
