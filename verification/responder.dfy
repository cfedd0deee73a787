/**
 * The Eliza responder (`RespondingFeed` in babbler/responder.py). Mentions
 * of the bot that are direct replies get an answer built from the first
 * grammar pattern that matches them; answers go on the queue ahead of the
 * feed's own entries. The regular-expression engine is an oracle from a
 * pattern and a text to the capture groups of a match, and the random
 * choice of a template is an index supplied by the caller.
 */
module Responder {
  import opened Wrappers
  import opened Text
  import opened Feeds

  /** One grammar entry: a pattern and its response templates. */
  datatype Rule = Rule(pattern: string, responses: seq<string>)

  /** The groups of a match, group 0 being the whole match; `None` for a group that took no part. */
  type Groups = seq<Option<string>>

  /** The loaded grammar and the matcher standing for `re.compile(pattern, re.IGNORECASE).match`. */
  datatype Eliza = Eliza(
    rules: seq<Rule>,
    reflections: map<string, string>,
    matcher: (string, string) -> Option<Groups>)

  /** What `response` gives back: `None` when nothing matched, a text, or an exception it raised. */
  datatype Reply = NoMatch | Said(text: string) | Raised

  // ---------------------------------------------------------------------
  // Reflection
  // ---------------------------------------------------------------------

  function ReflectAll(refl: map<string, string>, ws: seq<string>): (r: seq<string>)
    ensures |r| == |ws|
    ensures forall k :: 0 <= k < |ws| ==> r[k] == if ws[k] in refl then refl[ws[k]] else ws[k]
  {
    seq(|ws|, k requires 0 <= k < |ws| => if ws[k] in refl then refl[ws[k]] else ws[k])
  }

  /**
   * `translate`: lower-case, split on whitespace, swap each word that has a
   * reflection, join with single spaces. Nothing is brought in but spaces,
   * characters of the lower-cased text and characters of reflections.
   */
  function Translate(refl: map<string, string>, s: string): (r: string)
    ensures forall c :: c in r ==> FromTranslation(refl, Lower(s), c)
  {
    var ws := ReflectAll(refl, Words(Lower(s)));
    TranslatedWordsFrom(refl, Lower(s));
    JoinKeeps(ws, c => FromTranslation(refl, Lower(s), c));
    Join(ws, " ")
  }

  /** A character `translate` may output: a space, a character of the lower-cased text, or one of a reflection. */
  predicate FromTranslation(refl: map<string, string>, l: string, c: char) {
    c == ' ' || c in l || c in ReflectedChars(refl)
  }

  /** Every character of every reflection. */
  function ReflectedChars(refl: map<string, string>): set<char> {
    set w, c | w in refl && c in refl[w] :: c
  }

  lemma TranslatedWordsFrom(refl: map<string, string>, l: string)
    ensures var ws := ReflectAll(refl, Words(l));
      forall w, i :: w in ws && 0 <= i < |w| ==> FromTranslation(refl, l, w[i])
  {
    WordsChars(l, c => c in l);
    var ws := ReflectAll(refl, Words(l));
    forall w, i | w in ws && 0 <= i < |w| ensures FromTranslation(refl, l, w[i]) {
      var k :| 0 <= k < |ws| && ws[k] == w;
      assert Words(l)[k] in Words(l);
      if Words(l)[k] in refl {
        assert w[i] in refl[Words(l)[k]];
      }
    }
  }

  /** Joining with spaces keeps any property that the items' characters and the space share. */
  lemma {:induction false} JoinKeeps(ws: seq<string>, P: char -> bool)
    requires forall w, i :: w in ws && 0 <= i < |w| ==> P(w[i])
    requires P(' ')
    ensures forall i :: 0 <= i < |Join(ws, " ")| ==> P(Join(ws, " ")[i])
  {
    if |ws| > 1 {
      JoinKeeps(ws[1..], P);
      var a, b := ws[0], Join(ws[1..], " ");
      assert ws[0] in ws;
      assert Join(ws, " ") == a + " " + b;
      forall i | 0 <= i < |a + " " + b| ensures P((a + " " + b)[i]) {
        if i < |a| {
          assert (a + " " + b)[i] == a[i];
        } else if i > |a| {
          assert (a + " " + b)[i] == b[i - |a| - 1];
        }
      }
    } else if |ws| == 1 {
      assert ws[0] in ws;
    }
  }

  /** A reflection table whose replacements are single words. */
  predicate WordValues(refl: map<string, string>) {
    forall w :: w in refl ==> |refl[w]| > 0 && NoSpace(refl[w])
  }

  lemma TokenLenLower(s: string)
    ensures TokenLen(Lower(s)) == TokenLen(s)
    decreases |s|
  {
    if |s| > 0 && !IsSpace(s[0]) {
      assert Lower(s)[1..] == Lower(s[1..]);
      TokenLenLower(s[1..]);
    }
  }

  /** `a` is `b` word for word, lower-cased. */
  predicate LowerWords(a: seq<string>, b: seq<string>) {
    |a| == |b| && forall k :: 0 <= k < |b| ==> a[k] == Lower(b[k])
  }

  /** Lower-casing keeps the word boundaries: the words of the lower-cased text are the lower-cased words. */
  lemma {:induction false} WordsOfLower(s: string)
    ensures LowerWords(Words(Lower(s)), Words(s))
    decreases |s|
  {
    var l := Lower(s);
    if |s| == 0 {
    } else if IsSpace(s[0]) {
      assert l[1..] == Lower(s[1..]);
      WordsOfLower(s[1..]);
    } else {
      var n := TokenLen(s);
      TokenLenLower(s);
      assert l[..n] == Lower(s[..n]);
      assert l[n..] == Lower(s[n..]);
      WordsOfLower(s[n..]);
      LowerWordsCons(Lower(s[..n]), Words(Lower(s[n..])), s[..n], Words(s[n..]));
    }
  }

  lemma LowerWordsCons(x: string, a: seq<string>, y: string, b: seq<string>)
    requires x == Lower(y) && LowerWords(a, b)
    ensures LowerWords([x] + a, [y] + b)
  {
  }

  /**
   * `translate` keeps the word count and replaces word for word: the k-th
   * word of the result is the reflection of the k-th lower-cased word of
   * the input, or that word itself.
   */
  lemma TranslateWordForWord(refl: map<string, string>, s: string)
    requires WordValues(refl)
    ensures var r := Words(Translate(refl, s));
      && |r| == |Words(s)|
      && forall k :: 0 <= k < |r| ==>
           r[k] == if Lower(Words(s)[k]) in refl then refl[Lower(Words(s)[k])] else Lower(Words(s)[k])
  {
    WordsOfLower(s);
    WordsOfJoin(ReflectAll(refl, Words(Lower(s))));
  }

  /** `translate` adds no character that is neither in its input nor in a reflection; in particular no `%`. */
  lemma TranslateNoPercent(refl: map<string, string>, s: string)
    requires '%' !in s
    requires forall w :: w in refl ==> '%' !in refl[w]
    ensures '%' !in Translate(refl, s)
  {
    var l := Lower(s);
    assert '%' !in l by {
      assert forall k :: 0 <= k < |l| ==> l[k] != '%';
    }
    var r := Translate(refl, s);
    assert '%' !in ReflectedChars(refl);
    assert !FromTranslation(refl, l, '%');
  }

  // ---------------------------------------------------------------------
  // Placeholder substitution
  // ---------------------------------------------------------------------

  function Digit(c: char): nat
    requires IsDigit(c)
  {
    c as int - '0' as int
  }

  /** The groups as a placeholder sees them: each text that took part, translated. */
  function Switched(groups: Groups, refl: map<string, string>): (r: Groups)
    ensures |r| == |groups|
    ensures forall k :: 0 <= k < |groups| ==>
      r[k] == if groups[k].Some? then Some(Translate(refl, groups[k].value)) else None
  {
    seq(|groups|, k requires 0 <= k < |groups| =>
      if groups[k].Some? then Some(Translate(refl, groups[k].value)) else None)
  }

  /** No text a placeholder can bring in holds a `%`. */
  predicate CleanGroups(sw: Groups) {
    forall k :: 0 <= k < |sw| && sw[k].Some? ==> '%' !in sw[k].value
  }

  /**
   * Each `%k` of a template replaced by the switched group `k`, the
   * template read once from left to right. `None` when a placeholder has no
   * digit after it or names a group that is absent or did not take part
   * (the Python code raises there).
   */
  function Substitute(t: string, sw: Groups): (r: Option<string>)
    ensures '%' !in t ==> r == Some(t)
    ensures CleanGroups(sw) && r.Some? ==> '%' !in r.value
    decreases |t|
  {
    if |t| == 0 then Some("")
    else if t[0] != '%' then
      match Substitute(t[1..], sw)
      case None => None
      case Some(rest) => assert t == [t[0]] + t[1..]; Some([t[0]] + rest)
    else if |t| < 2 || !IsDigit(t[1]) then None
    else
      var k := Digit(t[1]);
      if k >= |sw| || sw[k].None? then None
      else
        match Substitute(t[2..], sw)
        case None => None
        case Some(rest) => Some(sw[k].value + rest)
  }

  /** The outcome of the substitution loop as written: a text, an exception, or still running when the fuel ran out. */
  datatype Run = Finished(text: string) | Failed | Unfinished

  /**
   * The substitution loop of `response` as written: find the first `%` of
   * the whole current response, splice in the switched group, and search
   * again from the start, so that a `%` brought in by a captured text is
   * itself taken for a placeholder. `fuel` bounds the number of passes.
   */
  function SubstituteAsWritten(response: string, sw: Groups, fuel: nat): (r: Run)
    ensures r.Finished? ==> '%' !in r.text
    ensures '%' !in response && fuel > 0 ==> r == Finished(response)
    ensures fuel == 0 ==> r == Unfinished
    decreases fuel
  {
    if fuel == 0 then Unfinished
    else
      match Scan(response, sw)
      case Done(t) => Finished(t)
      case Stuck => Failed
      case Again(next) => SubstituteAsWritten(next, sw, fuel - 1)
  }

  /** One pass of the loop as written: no `%` left, an exception, or the response with its first placeholder spliced. */
  datatype Pass = Done(text: string) | Stuck | Again(next: string)

  /**
   * One pass: the text is done when it holds no `%`; otherwise the first `%`
   * must be followed by a digit naming a group that took part, or the pass
   * raises. `OnePass` gives the text of a pass that replaces a placeholder.
   */
  function Scan(response: string, sw: Groups): (r: Pass)
    ensures r.Done? <==> '%' !in response
    ensures r.Done? ==> r.text == response
    ensures r.Stuck? <==>
      var pos := IndexOf(response, '%');
      pos < |response| && (pos + 1 == |response| || !IsDigit(response[pos + 1])
                           || Digit(response[pos + 1]) >= |sw| || sw[Digit(response[pos + 1])].None?)
  {
    var pos := IndexOf(response, '%');
    if pos == |response| then Done(response)
    else if pos + 1 >= |response| || !IsDigit(response[pos + 1]) then Stuck
    else
      var k := Digit(response[pos + 1]);
      if k >= |sw| || sw[k].None? then Stuck
      else Again(response[..pos] + sw[k].value + response[pos + 2..])
  }

  lemma TranslateAPercent()
    ensures Translate(map[], "a%1") == "a%1"
  {
    var s := "a%1";
    assert Lower(s) == s by {
      assert Lower(s)[0] == 'a' && Lower(s)[1] == '%' && Lower(s)[2] == '1';
    }
    assert NoSpace(s);
    WordsOfWord(s);
    assert ReflectAll(map[], [s]) == [s];
  }

  /** Each pass of the loop as written turns `x%d` into `xa%d` when group `d` captured `a%d`. */
  lemma {:induction false} RescanLoops(x: string, d: char, sw: Groups, fuel: nat)
    requires '%' !in x
    requires IsDigit(d) && Digit(d) < |sw| && sw[Digit(d)] == Some(['a', '%', d])
    ensures SubstituteAsWritten(x + ['%', d], sw, fuel) == Unfinished
    decreases fuel
  {
    if fuel > 0 {
      NoneInConcat(x, ['a'], '%');
      RescanLoops(x + ['a'], d, sw, fuel - 1);
      RescanStep(x, d, sw, fuel);
    }
  }

  lemma RescanStep(x: string, d: char, sw: Groups, fuel: nat)
    requires '%' !in x
    requires IsDigit(d) && Digit(d) < |sw| && sw[Digit(d)] == Some(['a', '%', d])
    requires fuel > 0
    requires SubstituteAsWritten((x + ['a']) + ['%', d], sw, fuel - 1) == Unfinished
    ensures SubstituteAsWritten(x + ['%', d], sw, fuel) == Unfinished
  {
    ScanSplicesA(x, d, sw);
    PassThenUnfinished(x + ['%', d], (x + ['a']) + ['%', d], sw, fuel);
  }

  lemma ScanSplicesA(x: string, d: char, sw: Groups)
    requires '%' !in x
    requires IsDigit(d) && Digit(d) < |sw| && sw[Digit(d)] == Some(['a', '%', d])
    ensures Scan(x + ['%', d], sw) == Again((x + ['a']) + ['%', d])
  {
    var t := ['%', d];
    OnePassThroughGroup(x, t, sw);
    assert (x + ['a', '%', d]) + t[2..] == (x + ['a']) + t;
  }

  /**
   * With the template `%1`, a captured text `a%1` and no reflections, the
   * loop as written never finishes: every pass puts a new `%1` in front of
   * the one it replaced. The single-pass substitution gives `a%1`.
   */
  lemma RescanNeverFinishes(fuel: nat)
    ensures var sw := Switched([Some("a%1"), Some("a%1")], map[]);
      && SubstituteAsWritten("%1", sw, fuel) == Unfinished
      && Substitute("%1", sw) == Some("a%1")
  {
    TranslateAPercent();
    var sw := Switched([Some("a%1"), Some("a%1")], map[]);
    assert sw == [Some("a%1"), Some("a%1")];
    assert ['a', '%', '1'] == "a%1";
    assert [] + ['%', '1'] == "%1";
    RescanLoops([], '1', sw, fuel);
    assert "%1"[2..] == "" && Substitute("", sw) == Some("");
    assert "a%1" + "" == "a%1";
  }

  /**
   * "I am 50% off" under the pattern `I am (.*)` and the template `%1`: the
   * loop as written splices in `50% off`, then takes its `%` for a
   * placeholder and fails on the space after it (`int(' ')` raises
   * `ValueError`). The single-pass substitution answers `50% off`.
   */
  lemma PercentInCaptureRaises(fuel: nat)
    requires fuel >= 2
    ensures var sw := Switched([Some("I am 50% off"), Some("50% off")], map[]);
      && SubstituteAsWritten("%1", sw, fuel) == Failed
      && Substitute("%1", sw) == Some("50% off")
  {
    var sw := Switched([Some("I am 50% off"), Some("50% off")], map[]);
    TranslateFifty();
    assert |sw| == 2 && sw[1] == Some("50% off");
    FiftyScans(sw);
    AgainUnfolds("%1", sw, fuel);
    FiftySubstitutes(sw);
  }

  lemma FiftyScans(sw: Groups)
    requires |sw| == 2 && sw[1] == Some("50% off")
    ensures Scan("%1", sw) == Again("50% off")
    ensures Scan("50% off", sw) == Stuck
  {
    FirstPassSplices(sw);
    SecondPassStuck(sw);
  }

  lemma FirstPassSplices(sw: Groups)
    requires |sw| == 2 && sw[1] == Some("50% off")
    ensures Scan("%1", sw) == Again("50% off")
  {
    var t := "%1";
    assert t[0] == '%' && IsDigit(t[1]) && Digit(t[1]) == 1;
    OnePassThroughGroup([], t, sw);
    assert [] + t == t && ([] + "50% off") + t[2..] == "50% off";
  }

  lemma SecondPassStuck(sw: Groups)
    ensures Scan("50% off", sw) == Stuck
  {
    var p, v := "50", "% off";
    assert '%' !in p && v[0] == '%' && !IsDigit(v[1]);
    AsWrittenBadPlaceholder(p, v, sw);
    assert p + v == "50% off";
  }

  lemma FiftySubstitutes(sw: Groups)
    requires |sw| == 2 && sw[1] == Some("50% off")
    ensures Substitute("%1", sw) == Some("50% off")
  {
    assert "%1"[2..] == "" && Substitute("", sw) == Some("");
    assert "50% off" + "" == "50% off";
  }

  /** With no reflections, `translate` leaves `50% off` as it is. */
  lemma TranslateFifty()
    ensures Translate(map[], "50% off") == "50% off"
  {
    var a, b := "50%", "off";
    assert NoSpace(a) && NoSpace(b);
    assert forall k :: 0 <= k < |a| ==> !IsUpper(a[k]);
    assert forall k :: 0 <= k < |b| ==> !IsUpper(b[k]);
    TranslateTwoWords(map[], a, b);
    assert a + [' '] + b == "50% off";
  }

  /** Two lower-case words without reflections come through `translate` as they were. */
  lemma TranslateTwoWords(refl: map<string, string>, a: string, b: string)
    requires |a| > 0 && |b| > 0 && NoSpace(a) && NoSpace(b)
    requires forall k :: 0 <= k < |a| ==> !IsUpper(a[k])
    requires forall k :: 0 <= k < |b| ==> !IsUpper(b[k])
    requires a !in refl && b !in refl
    ensures Translate(refl, a + [' '] + b) == a + [' '] + b
  {
    var s := a + [' '] + b;
    assert Lower(s) == s;
    TwoWords(a, b);
    assert ReflectAll(refl, [a, b]) == [a, b];
    JoinTwo(a, b);
  }

  /** Two words around one space split back into those two words. */
  lemma TwoWords(a: string, b: string)
    requires |a| > 0 && |b| > 0 && NoSpace(a) && NoSpace(b)
    ensures Words(a + [' '] + b) == [a, b]
  {
    WordsAroundSpace(a, b);
    WordsOfWord(a);
    WordsOfWord(b);
  }

  /** Two words joined by a space. */
  lemma JoinTwo(a: string, b: string)
    ensures Join([a, b], " ") == a + [' '] + b
  {
    assert [a, b][1..] == [b];
  }

  function Prefixed(u: string, o: Option<string>): Option<string> {
    if o.Some? then Some(u + o.value) else None
  }

  /** One pass of the loop as written over `p + t`, `p` free of `%` and `t` starting with a placeholder `%k`. */
  lemma OnePass(p: string, t: string, sw: Groups)
    requires '%' !in p
    requires |t| >= 2 && t[0] == '%' && IsDigit(t[1])
    ensures var k := Digit(t[1]);
      Scan(p + t, sw) == if k >= |sw| || sw[k].None? then Stuck else Again((p + sw[k].value) + t[2..])
  {
    PlaceholderAfter(p, t);
    if Digit(t[1]) < |sw| && sw[Digit(t[1])].Some? {
      SpliceAfter(p, t, sw[Digit(t[1])].value);
    }
  }

  /** The first `%` of `p + t` is the one opening `t`. */
  lemma PlaceholderAfter(p: string, t: string)
    requires '%' !in p
    requires |t| >= 2 && t[0] == '%'
    ensures IndexOf(p + t, '%') == |p| && (p + t)[|p| + 1] == t[1]
  {
    IndexOfAppend(p, t, '%');
    assert IndexOf(t, '%') == 0;
  }

  /** Splicing `x` over the two characters at `|p|` of `p + t`. */
  lemma SpliceAfter(p: string, t: string, x: string)
    requires |t| >= 2
    ensures (p + t)[..|p|] + x + (p + t)[|p| + 2..] == (p + x) + t[2..]
  {
    assert (p + t)[..|p|] == p;
    assert (p + t)[|p| + 2..] == t[2..];
  }

  /** A template starting with a placeholder `%k`. */
  lemma SubstitutePlaceholder(v: string, sw: Groups)
    requires |v| >= 2 && v[0] == '%' && IsDigit(v[1])
    ensures var k := Digit(v[1]);
      Substitute(v, sw) == if k >= |sw| || sw[k].None? then None else Prefixed(sw[k].value, Substitute(v[2..], sw))
  {
  }

  function Outcome(p: string, o: Option<string>): Run {
    if o.Some? then Finished(p + o.value) else Failed
  }

  /** The loop as written stops at once on a text without `%`. */
  lemma AsWrittenNoPlaceholder(r: string, sw: Groups)
    requires '%' !in r
    ensures Scan(r, sw) == Done(r)
  {
  }

  /** The loop as written fails on a `%` with no digit after it. */
  lemma AsWrittenBadPlaceholder(p: string, v: string, sw: Groups)
    requires '%' !in p
    requires |v| >= 1 && v[0] == '%' && (|v| < 2 || !IsDigit(v[1]))
    ensures Scan(p + v, sw) == Stuck
  {
    IndexOfAppend(p, v, '%');
    assert (p + v)[|p|] == '%';
    assert |v| >= 2 ==> (p + v)[|p| + 1] == v[1];
  }

  lemma OnePassThroughGroup(p: string, v: string, sw: Groups)
    requires '%' !in p
    requires |v| >= 2 && v[0] == '%' && IsDigit(v[1])
    requires Digit(v[1]) < |sw| && sw[Digit(v[1])].Some?
    ensures Scan(p + v, sw) == Again((p + sw[Digit(v[1])].value) + v[2..])
  {
    OnePass(p, v, sw);
  }

  lemma SubstituteThroughGroup(v: string, sw: Groups)
    requires |v| >= 2 && v[0] == '%' && IsDigit(v[1])
    requires Digit(v[1]) < |sw| && sw[Digit(v[1])].Some?
    ensures Substitute(v, sw) == Prefixed(sw[Digit(v[1])].value, Substitute(v[2..], sw))
  {
    SubstitutePlaceholder(v, sw);
  }

  lemma OutcomeShift(q: string, x: string, o: Option<string>)
    ensures Outcome(q + x, o) == Outcome(q, Prefixed(x, o))
  {
    if o.Some? {
      assert (q + x) + o.value == q + (x + o.value);
    }
  }

  lemma NoneInConcat(a: string, b: string, c: char)
    requires c !in a && c !in b
    ensures c !in a + b
  {
  }

  lemma PassThenUnfinished(response: string, next: string, sw: Groups, fuel: nat)
    requires fuel > 0 && Scan(response, sw) == Again(next)
    requires SubstituteAsWritten(next, sw, fuel - 1) == Unfinished
    ensures SubstituteAsWritten(response, sw, fuel) == Unfinished
  {
  }

  /** A pass that splices a placeholder leaves the rest of the work to the remaining passes. */
  lemma AgainUnfolds(response: string, sw: Groups, fuel: nat)
    requires fuel > 0 && Scan(response, sw).Again?
    ensures SubstituteAsWritten(response, sw, fuel) == SubstituteAsWritten(Scan(response, sw).next, sw, fuel - 1)
  {
  }

  /** The loop as written, run on `p + t` with `p` free of `%`, ends as the single-pass substitution of `t` behind `p`. */
  predicate Agrees(p: string, t: string, sw: Groups, fuel: nat) {
    SubstituteAsWritten(p + t, sw, fuel) == Outcome(p, Substitute(t, sw))
  }

  /**
   * When no switched group holds a `%`, the loop as written, given more
   * passes than the template has characters, ends exactly as the
   * single-pass substitution: the correction changes nothing for such input.
   */
  lemma {:induction false} AsWrittenAgrees(p: string, t: string, sw: Groups, fuel: nat)
    requires '%' !in p
    requires CleanGroups(sw)
    requires fuel > |t|
    ensures Agrees(p, t, sw, fuel)
    decreases |t|, 2
  {
    if |t| == 0 {
      AgreesAtEnd(p, sw, fuel);
    } else if t[0] != '%' {
      AgreesPastChar(p, t, sw, fuel);
    } else if |t| < 2 || !IsDigit(t[1]) {
      AgreesAtBadPlaceholder(p, t, sw, fuel);
    } else if Digit(t[1]) >= |sw| || sw[Digit(t[1])].None? {
      AgreesAtMissingGroup(p, t, sw, fuel);
    } else {
      GroupFacts(p, t, sw, fuel);
      GroupShift(p, t, sw, fuel);
    }
  }

  /** The step of `AsWrittenAgrees` past an ordinary character. */
  lemma {:induction false} AgreesPastChar(p: string, t: string, sw: Groups, fuel: nat)
    requires '%' !in p && CleanGroups(sw) && fuel > |t|
    requires |t| > 0 && t[0] != '%'
    ensures Agrees(p, t, sw, fuel)
    decreases |t|, 0
  {
    NoneInConcat(p, [t[0]], '%');
    AsWrittenAgrees(p + [t[0]], t[1..], sw, fuel);
    CharStep(p, t, sw, fuel);
  }

  /** Nothing left of the template: the loop as written stops at once. */
  lemma AgreesAtEnd(p: string, sw: Groups, fuel: nat)
    requires '%' !in p && fuel > 0
    ensures Agrees(p, [], sw, fuel)
  {
    assert p + [] == p;
    AsWrittenNoPlaceholder(p, sw);
  }

  /** An ordinary character is copied by both. */
  lemma CharStep(p: string, t: string, sw: Groups, fuel: nat)
    requires |t| > 0 && t[0] != '%'
    requires Agrees(p + [t[0]], t[1..], sw, fuel)
    ensures Agrees(p, t, sw, fuel)
  {
    assert (p + [t[0]]) + t[1..] == p + t;
    assert Substitute(t, sw) == Prefixed([t[0]], Substitute(t[1..], sw));
    OutcomeShift(p, [t[0]], Substitute(t[1..], sw));
  }

  /**
   * One pass of the loop as written and the single pass both splice the
   * same text `px` ahead of a shorter rest of the template, with a pass
   * spent: agreement on the rest then carries over to the whole.
   */
  ghost predicate ShiftsToAgreement(p: string, t: string, sw: Groups, fuel: nat) {
    exists px: string, rest: string, less: nat :: Shifted(p, t, sw, fuel, px, rest, less)
  }

  /** The facts `ShiftsToAgreement` asks for, about one choice of `px`, `rest` and `less`. */
  predicate Shifted(p: string, t: string, sw: Groups, fuel: nat, px: string, rest: string, less: nat) {
    '%' !in px && PassShifted(p, t, sw, fuel, px, rest, less) && OutcomeShifted(p, t, sw, px, rest)
  }

  /** The loop as written, with a pass spent, goes on from `px` ahead of a shorter `rest`. */
  predicate PassShifted(p: string, t: string, sw: Groups, fuel: nat, px: string, rest: string, less: nat) {
    && less > |rest| && |rest| < |t|
    && SubstituteAsWritten(p + t, sw, fuel) == SubstituteAsWritten(px + rest, sw, less)
  }

  /** The single pass gives the same outcome from `px` ahead of `rest`. */
  predicate OutcomeShifted(p: string, t: string, sw: Groups, px: string, rest: string) {
    Outcome(px, Substitute(rest, sw)) == Outcome(p, Substitute(t, sw))
  }

  /** A placeholder whose group took part shifts the comparison past itself. */
  lemma GroupFacts(p: string, t: string, sw: Groups, fuel: nat)
    requires '%' !in p && CleanGroups(sw) && fuel > |t|
    requires |t| >= 2 && t[0] == '%' && IsDigit(t[1])
    requires Digit(t[1]) < |sw| && sw[Digit(t[1])].Some?
    ensures ShiftsToAgreement(p, t, sw, fuel)
  {
    var x := sw[Digit(t[1])].value;
    var px, rest, less := p + x, t[2..], fuel - 1;
    NoneInConcat(p, x, '%');
    PassThroughGroup(p, x, t, sw, fuel, px, rest, less);
    OutcomeThroughGroup(p, x, t, sw, px, rest);
    assert Shifted(p, t, sw, fuel, px, rest, less);
  }

  /** The step of `AsWrittenAgrees` past a placeholder whose group took part. */
  lemma {:induction false} GroupShift(p: string, t: string, sw: Groups, fuel: nat)
    requires CleanGroups(sw) && ShiftsToAgreement(p, t, sw, fuel)
    ensures Agrees(p, t, sw, fuel)
    decreases |t|, 1
  {
    var px: string, rest: string, less: nat :| Shifted(p, t, sw, fuel, px, rest, less);
    GroupStep(p, t, sw, fuel, px, rest, less);
  }

  /** Agreement on the rest carries over to the whole once both have spliced `px`. */
  lemma {:induction false} GroupStep(p: string, t: string, sw: Groups, fuel: nat, px: string, rest: string, less: nat)
    requires CleanGroups(sw) && Shifted(p, t, sw, fuel, px, rest, less)
    ensures Agrees(p, t, sw, fuel)
    decreases |t|, 0
  {
    AsWrittenAgrees(px, rest, sw, less);
  }

  /** The first pass of the loop as written splices group `x` in place of the placeholder. */
  lemma PassThroughGroup(p: string, x: string, t: string, sw: Groups, fuel: nat, px: string, rest: string, less: nat)
    requires '%' !in p && fuel > |t|
    requires |t| >= 2 && t[0] == '%' && IsDigit(t[1])
    requires Digit(t[1]) < |sw| && sw[Digit(t[1])] == Some(x)
    requires px == p + x && rest == t[2..] && less + 1 == fuel
    ensures PassShifted(p, t, sw, fuel, px, rest, less)
  {
    OnePassThroughGroup(p, t, sw);
    AgainUnfolds(p + t, sw, fuel);
    PassSpent(p + t, px + rest, sw, fuel, less);
  }

  /** A pass spent on the way from `whole` to `next` leaves `less` fuel. */
  lemma PassSpent(whole: string, next: string, sw: Groups, fuel: nat, less: nat)
    requires fuel > 0 && less + 1 == fuel
    requires SubstituteAsWritten(whole, sw, fuel) == SubstituteAsWritten(next, sw, fuel - 1)
    ensures SubstituteAsWritten(whole, sw, fuel) == SubstituteAsWritten(next, sw, less)
  {
  }

  /** The single pass puts group `x` in place of the placeholder too. */
  lemma OutcomeThroughGroup(p: string, x: string, t: string, sw: Groups, px: string, rest: string)
    requires |t| >= 2 && t[0] == '%' && IsDigit(t[1])
    requires Digit(t[1]) < |sw| && sw[Digit(t[1])] == Some(x)
    requires px == p + x && rest == t[2..]
    ensures OutcomeShifted(p, t, sw, px, rest)
  {
    SubstituteThroughGroup(t, sw);
    OutcomeShift(p, x, Substitute(rest, sw));
  }

  /** A `%` without a digit after it: both fail. */
  lemma AgreesAtBadPlaceholder(p: string, t: string, sw: Groups, fuel: nat)
    requires '%' !in p && fuel > 0
    requires |t| >= 1 && t[0] == '%' && (|t| < 2 || !IsDigit(t[1]))
    ensures Agrees(p, t, sw, fuel)
  {
    AsWrittenBadPlaceholder(p, t, sw);
    assert Substitute(t, sw) == None;
  }

  /** A placeholder naming a group that is absent or took no part: both fail. */
  lemma AgreesAtMissingGroup(p: string, t: string, sw: Groups, fuel: nat)
    requires '%' !in p && fuel > 0
    requires |t| >= 2 && t[0] == '%' && IsDigit(t[1])
    requires Digit(t[1]) >= |sw| || sw[Digit(t[1])].None?
    ensures Agrees(p, t, sw, fuel)
  {
    OnePass(p, t, sw);
    SubstitutePlaceholder(t, sw);
  }

  // ---------------------------------------------------------------------
  // Punctuation trim
  // ---------------------------------------------------------------------

  /** The length of the run of punctuation at the end of `s`. */
  function TrailingPunct(s: string): (n: nat)
    ensures n <= |s|
    ensures forall k :: |s| - n <= k < |s| ==> IsPunct(s[k])
    ensures n < |s| ==> !IsPunct(s[|s| - n - 1])
  {
    if |s| == 0 || !IsPunct(s[|s| - 1]) then 0 else 1 + TrailingPunct(s[..|s| - 1])
  }

  /** `s.rstrip(string.punctuation)`. */
  function RStripPunct(s: string): string
  {
    s[..|s| - TrailingPunct(s)]
  }

  lemma TrailingPunctOfCut(s: string)
    requires TrailingPunct(s) >= 2
    ensures var s' := s[..|s| - 2] + [s[|s| - 1]];
      TrailingPunct(s') == TrailingPunct(s) - 1 && RStripPunct(s') == RStripPunct(s)
  {
    var s' := s[..|s| - 2] + [s[|s| - 1]];
    assert s'[..|s'| - 1] == s[..|s| - 2];
    assert s[..|s| - 1][..|s| - 2] == s[..|s| - 2];
    assert TrailingPunct(s[..|s| - 1]) == TrailingPunct(s) - 1;
    assert TrailingPunct(s') == 1 + TrailingPunct(s[..|s| - 2]);
  }

  /**
   * The trim at the end of `response`: while more than one punctuation
   * character ends the text, drop the one before the last. What is left is
   * the text without its trailing punctuation, followed by its final
   * character when that was punctuation.
   */
  function TrimPunctuation(s: string): (r: string)
    ensures r == RStripPunct(s) + (if TrailingPunct(s) > 0 then [s[|s| - 1]] else [])
    decreases |s|
  {
    if |RStripPunct(s)| + 1 < |s| then
      TrailingPunctOfCut(s);
      TrimPunctuation(s[..|s| - 2] + [s[|s| - 1]])
    else
      assert TrailingPunct(s) > 0 ==> s == s[..|s| - 1] + [s[|s| - 1]];
      s
  }

  /** At most one punctuation character is left at the end, and the text before the run and its last character are kept. */
  lemma TrimKeepsText(s: string)
    ensures var r := TrimPunctuation(s);
      && TrailingPunct(r) <= 1
      && RStripPunct(r) == RStripPunct(s)
      && (|s| > 0 ==> |r| > 0 && r[|r| - 1] == s[|s| - 1])
  {
    var r := TrimPunctuation(s);
    var b := RStripPunct(s);
    if TrailingPunct(s) > 0 {
      assert r[..|r| - 1] == b;
      assert TrailingPunct(b) == 0;
      assert TrailingPunct(r) == 1;
    } else {
      assert r == s;
    }
  }

  /** A second trim changes nothing. */
  lemma TrimIdempotent(s: string)
    ensures TrimPunctuation(TrimPunctuation(s)) == TrimPunctuation(s)
  {
    TrimKeepsText(s);
    var r := TrimPunctuation(s);
    if TrailingPunct(r) > 0 {
      assert r == r[..|r| - 1] + [r[|r| - 1]];
    }
  }

  lemma TrimExamples()
    ensures TrimPunctuation("hello..") == "hello."
    ensures TrimPunctuation("hello.") == "hello."
  {
    assert "hello.."[..6] == "hello.";
    assert "hello."[..5] == "hello";
    assert TrailingPunct("hello") == 0;
    assert TrailingPunct("hello.") == 1;
    assert TrailingPunct("hello..") == 2;
    assert RStripPunct("hello..") == "hello";
    assert RStripPunct("hello.") == "hello";
  }

  // ---------------------------------------------------------------------
  // Responding
  // ---------------------------------------------------------------------

  /** The index of the first rule, from `i` on, whose pattern matches the text. */
  function FirstMatch(rules: seq<Rule>, matcher: (string, string) -> Option<Groups>, text: string, i: nat): (r: Option<nat>)
    ensures r.None? <==> forall k :: i <= k < |rules| ==> matcher(rules[k].pattern, text).None?
    ensures r.Some? ==>
      && i <= r.value < |rules| && matcher(rules[r.value].pattern, text).Some?
      && forall k :: i <= k < r.value ==> matcher(rules[k].pattern, text).None?
    decreases |rules| - i
  {
    if i >= |rules| then None
    else if matcher(rules[i].pattern, text).Some? then Some(i)
    else FirstMatch(rules, matcher, text, i + 1)
  }

  /**
   * `response`: the first rule whose pattern matches gives the template at
   * `pick` (standing for `random.choice`); its placeholders are substituted
   * and its trailing punctuation trimmed.
   */
  function Response(el: Eliza, text: string, pick: nat): (r: Reply)
    ensures r.NoMatch? <==> forall k :: 0 <= k < |el.rules| ==> el.matcher(el.rules[k].pattern, text).None?
    ensures r.Said? ==> TrailingPunct(r.text) <= 1
    ensures FirstMatch(el.rules, el.matcher, text, 0).Some? ==>
      var rule := el.rules[FirstMatch(el.rules, el.matcher, text, 0).value];
      var sw := Switched(el.matcher(rule.pattern, text).value, el.reflections);
      && (|rule.responses| == 0 ==> r.Raised?)
      && (|rule.responses| > 0 ==>
            var o := Substitute(rule.responses[pick % |rule.responses|], sw);
            && (r.Raised? <==> o.None?)
            && (o.Some? ==> r == Said(TrimPunctuation(o.value))))
  {
    match FirstMatch(el.rules, el.matcher, text, 0)
    case None => NoMatch
    case Some(k) =>
      var rule := el.rules[k];
      var groups := el.matcher(rule.pattern, text).value;
      if |rule.responses| == 0 then Raised
      else
        match Substitute(rule.responses[pick % |rule.responses|], Switched(groups, el.reflections))
        case None => Raised
        case Some(s) =>
          TrimKeepsText(s);
          Said(TrimPunctuation(s))
  }

  /** Rule `k` is the first whose pattern matches the text, and its template at `pick` is `t`. */
  predicate AnswersWith(el: Eliza, text: string, pick: nat, k: nat, t: string) {
    && k < |el.rules| && el.matcher(el.rules[k].pattern, text).Some?
    && (forall j :: 0 <= j < k ==> el.matcher(el.rules[j].pattern, text).None?)
    && |el.rules[k].responses| > 0 && t == el.rules[k].responses[pick % |el.rules[k].responses|]
  }

  /** A template without placeholders is the response, trimmed. */
  lemma ResponseVerbatim(el: Eliza, text: string, pick: nat, k: nat, t: string)
    requires AnswersWith(el, text, pick, k, t) && '%' !in t
    ensures Response(el, text, pick) == Said(TrimPunctuation(t))
  {
    FirstMatchIs(el, text, k);
  }

  /**
   * A template with one placeholder `%d` gives the text around it with the
   * translation of group `d` in its place, trimmed; it raises when group `d`
   * is absent or took no part.
   */
  lemma ResponseOnePlaceholder(el: Eliza, text: string, pick: nat, k: nat, p: string, d: char, q: string)
    requires AnswersWith(el, text, pick, k, p + ['%', d] + q)
    requires '%' !in p && '%' !in q && IsDigit(d)
    ensures var g := el.matcher(el.rules[k].pattern, text).value;
      Response(el, text, pick) ==
        if Digit(d) < |g| && g[Digit(d)].Some?
        then Said(TrimPunctuation(p + Translate(el.reflections, g[Digit(d)].value) + q))
        else Raised
  {
    FirstMatchIs(el, text, k);
    var g := el.matcher(el.rules[k].pattern, text).value;
    var sw := Switched(g, el.reflections);
    SubstituteOne(p, d, q, sw);
  }

  lemma FirstMatchIs(el: Eliza, text: string, k: nat)
    requires k < |el.rules| && el.matcher(el.rules[k].pattern, text).Some?
    requires forall j :: 0 <= j < k ==> el.matcher(el.rules[j].pattern, text).None?
    ensures FirstMatch(el.rules, el.matcher, text, 0) == Some(k)
  {
    var m := FirstMatch(el.rules, el.matcher, text, 0);
    assert m.Some?;
  }

  /** The substitution of a template with a single placeholder `%d`. */
  lemma SubstituteOne(p: string, d: char, q: string, sw: Groups)
    requires '%' !in p && '%' !in q && IsDigit(d)
    ensures Substitute(p + ['%', d] + q, sw) ==
      if Digit(d) < |sw| && sw[Digit(d)].Some? then Some(p + sw[Digit(d)].value + q) else None
  {
    var v := ['%', d] + q;
    assert p + ['%', d] + q == p + v;
    SubstitutePrefix(p, v, sw);
    assert v[2..] == q;
    SubstitutePlaceholder(v, sw);
    if Digit(d) < |sw| && sw[Digit(d)].Some? {
      assert p + (sw[Digit(d)].value + q) == p + sw[Digit(d)].value + q;
    }
  }

  /** Text before the first `%` passes through the substitution unchanged. */
  lemma {:induction false} SubstitutePrefix(p: string, t: string, sw: Groups)
    requires '%' !in p
    ensures Substitute(p + t, sw) == Prefixed(p, Substitute(t, sw))
  {
    if |p| == 0 {
      assert p + t == t;
      if Substitute(t, sw).Some? {
        assert p + Substitute(t, sw).value == Substitute(t, sw).value;
      }
    } else {
      assert (p + t)[0] == p[0] && (p + t)[1..] == p[1..] + t;
      SubstitutePrefix(p[1..], t, sw);
      if Substitute(t, sw).Some? {
        assert [p[0]] + (p[1..] + Substitute(t, sw).value) == p + Substitute(t, sw).value;
      }
    }
  }

  lemma FirstMatchPrefix(rules: seq<Rule>, extra: seq<Rule>, matcher: (string, string) -> Option<Groups>,
                         text: string, i: nat)
    requires FirstMatch(rules, matcher, text, i).Some?
    ensures FirstMatch(rules + extra, matcher, text, i) == FirstMatch(rules, matcher, text, i)
    decreases |rules| - i
  {
    if matcher(rules[i].pattern, text).None? {
      FirstMatchPrefix(rules, extra, matcher, text, i + 1);
    }
  }

  /** Once a rule matches, the rules after it are never consulted: appending rules changes no response. */
  lemma LaterRulesIgnored(el: Eliza, extra: seq<Rule>, text: string, pick: nat)
    requires exists k :: 0 <= k < |el.rules| && el.matcher(el.rules[k].pattern, text).Some?
    ensures Response(el.(rules := el.rules + extra), text, pick) == Response(el, text, pick)
  {
    FirstMatchPrefix(el.rules, extra, el.matcher, text, 0);
    var k := FirstMatch(el.rules, el.matcher, text, 0).value;
    assert (el.rules + extra)[k] == el.rules[k];
  }

  /** When no captured text (nor any reflection) holds a `%`, a response holds none. */
  lemma NoPercentInResponse(el: Eliza, text: string, pick: nat)
    requires forall w :: w in el.reflections ==> '%' !in el.reflections[w]
    requires forall k :: 0 <= k < |el.rules| ==>
      var g := el.matcher(el.rules[k].pattern, text);
      g.Some? ==> forall j :: 0 <= j < |g.value| && g.value[j].Some? ==> '%' !in g.value[j].value
    ensures Response(el, text, pick).Said? ==> '%' !in Response(el, text, pick).text
  {
    var m := FirstMatch(el.rules, el.matcher, text, 0);
    if m.Some? {
      var rule := el.rules[m.value];
      var groups := el.matcher(rule.pattern, text).value;
      SwitchedClean(groups, el.reflections);
      if |rule.responses| > 0 {
        var o := Substitute(rule.responses[pick % |rule.responses|], Switched(groups, el.reflections));
        if o.Some? {
          TrimAddsNothing(o.value, '%');
        }
      }
    }
  }

  /** Translating groups free of `%` with reflections free of `%` brings in no `%`. */
  lemma SwitchedClean(groups: Groups, refl: map<string, string>)
    requires forall w :: w in refl ==> '%' !in refl[w]
    requires forall j :: 0 <= j < |groups| && groups[j].Some? ==> '%' !in groups[j].value
    ensures CleanGroups(Switched(groups, refl))
  {
    forall j | 0 <= j < |groups| && groups[j].Some?
      ensures '%' !in Translate(refl, groups[j].value)
    {
      TranslateNoPercent(refl, groups[j].value);
    }
  }

  /** The trim only removes characters. */
  lemma TrimAddsNothing(s: string, c: char)
    requires c !in s
    ensures c !in TrimPunctuation(s)
  {
    var b := RStripPunct(s);
    assert forall k :: 0 <= k < |b| ==> b[k] == s[k];
  }

  // ---------------------------------------------------------------------
  // Mentions
  // ---------------------------------------------------------------------

  /** A mention as the Twitter API returns it. */
  datatype Mention = Mention(id: Id, text: string, inReplyTo: Option<string>, sender: string)

  /** `"%s" % response`: a missing response prints as `None`. */
  function Shown(r: Reply): string {
    if r.Said? then r.text else "None"
  }

  /**
   * An attempt ends the retry loop: its response raised, or, prefixed with
   * the sender, it fits in `maxLen` (a missing response printing as `None`).
   */
  predicate Settles(reply: Reply, from: string, maxLen: int) {
    reply.Raised? || |from + " " + Shown(reply)| <= maxLen
  }

  /** Attempt `k` is the first from attempt `i` on that settles. */
  predicate FirstSettling(rs: seq<Reply>, from: string, maxLen: int, i: nat, k: int) {
    && i <= k < |rs| && Settles(rs[k], from, maxLen)
    && forall j :: i <= j < k ==> !Settles(rs[j], from, maxLen)
  }

  /**
   * The bounded retry loop over the responses its attempts get, from
   * attempt `i` on: a response too long once prefixed with the sender is
   * dropped and the next attempt is made. The outcome is the response of the
   * first attempt that settles, or `NoMatch` when none does.
   */
  function RetryFrom(rs: seq<Reply>, from: string, maxLen: int, i: nat): (r: Reply)
    requires i < |rs|
    ensures r.Said? ==> |from + " " + r.text| <= maxLen
    ensures forall k :: FirstSettling(rs, from, maxLen, i, k) ==> r == rs[k]
    ensures (forall k :: i <= k < |rs| ==> !Settles(rs[k], from, maxLen)) ==> r == NoMatch
    decreases |rs| - i
  {
    if rs[i].Raised? then Raised
    else if |from + " " + Shown(rs[i])| > maxLen then
      if i + 1 < |rs| then RetryFrom(rs, from, maxLen, i + 1) else NoMatch
    else rs[i]
  }

  /** The responses of the three attempts, attempt `k` choosing template `pick(k)`. */
  function Attempts(el: Eliza, text: string, pick: nat -> nat): (rs: seq<Reply>)
    ensures |rs| == 3 && forall k :: 0 <= k < 3 ==> rs[k] == Response(el, text, pick(k))
  {
    [Response(el, text, pick(0)), Response(el, text, pick(1)), Response(el, text, pick(2))]
  }

  /**
   * The retry loop of `entries`: up to three attempts, `tries` counting
   * down; the response of the first attempt that settles, else `NoMatch`.
   */
  function Retry(el: Eliza, text: string, from: string, maxLen: int, pick: nat -> nat): (r: Reply)
    ensures r.Said? ==> |from + " " + r.text| <= maxLen
    ensures var rs := Attempts(el, text, pick);
      && (forall k :: FirstSettling(rs, from, maxLen, 0, k) ==> r == rs[k])
      && ((forall k :: 0 <= k < 3 ==> !Settles(rs[k], from, maxLen)) ==> r == NoMatch)
  {
    RetryFrom(Attempts(el, text, pick), from, maxLen, 0)
  }

  /** The first attempt whose response fits is the answer; an earlier one that raised would have ended the loop. */
  lemma RetryFirstFitting(el: Eliza, text: string, from: string, maxLen: int, pick: nat -> nat, k: nat)
    requires k < 3
    requires Settles(Response(el, text, pick(k)), from, maxLen)
    requires forall j :: 0 <= j < k ==> !Settles(Response(el, text, pick(j)), from, maxLen)
    ensures Retry(el, text, from, maxLen, pick) == Response(el, text, pick(k))
  {
    var rs := Attempts(el, text, pick);
    assert FirstSettling(rs, from, maxLen, 0, k);
  }

  /** Only the first three template choices matter: there are at most three attempts. */
  lemma AtMostThreeAttempts(el: Eliza, text: string, from: string, maxLen: int, pick1: nat -> nat, pick2: nat -> nat)
    requires forall k :: 0 <= k < 3 ==> pick1(k) == pick2(k)
    ensures Retry(el, text, from, maxLen, pick1) == Retry(el, text, from, maxLen, pick2)
  {
    assert Attempts(el, text, pick1) == Attempts(el, text, pick2);
  }

  /** The mention is answerable: it names the user it replies to. */
  predicate Addressed(m: Mention) {
    m.inReplyTo.Some? && m.inReplyTo.value != ""
  }

  function ToName(m: Mention): string requires Addressed(m) { "@" + m.inReplyTo.value }

  function FromName(m: Mention): string { "@" + m.sender }

  /** The text starts, ignoring case, with the handle it replies to. */
  predicate IsReply(m: Mention) requires Addressed(m) {
    LStrip(ToName(m), '@') != "" && StartsWith(Lower(m.text), Lower(ToName(m)))
  }

  /** The text after the handle and one more character. */
  function Body(m: Mention): string requires Addressed(m) {
    Drop(m.text, |ToName(m)| + 1)
  }

  /** A direct reply without a link: the mentions that are answered. */
  predicate Answerable(m: Mention) requires Addressed(m) {
    IsReply(m) && !Contains(Lower(Body(m)), "http")
  }

  /** What one mention contributes: nothing, its id for `done`, a reply entry, or an exception. */
  datatype Answer = Ignore | Refuse | Reply(entry: Entry) | Silent | Crash

  /** The handling of one mention inside the loop over mentions. */
  function AnswerTo(el: Eliza, maxLen: int, saved: set<Id>, m: Mention, pick: (Id, nat) -> nat): (a: Answer)
    ensures a.Ignore? <==> !Addressed(m) || m.id in saved
    ensures a.Refuse? <==> Addressed(m) && m.id !in saved && !Answerable(m)
    ensures a.Reply? ==>
      && Addressed(m) && m.id !in saved && Answerable(m)
      && a.entry.id == m.id && a.entry.to == Some(FromName(m))
      && |FromName(m) + " " + a.entry.title| <= maxLen
    ensures Addressed(m) && m.id !in saved && Answerable(m) ==>
      var r := Retry(el, Body(m), FromName(m), maxLen, k => pick(m.id, k));
      && (a.Crash? <==> r.Raised?)
      && (a.Silent? <==> r.NoMatch?)
      && (r.Said? ==> a == Reply(Entry(m.id, r.text, Some(FromName(m)))))
  {
    if !Addressed(m) || m.id in saved then Ignore
    else if !Answerable(m) then Refuse
    else
      match Retry(el, Body(m), FromName(m), maxLen, k => pick(m.id, k))
      case Raised => Crash
      case NoMatch => Silent
      case Said(t) => Reply(Entry(m.id, t, Some(FromName(m))))
  }

  /** The mentions' part of `entries`: the reply entries and the updated `done` set, or an exception. */
  datatype Harvest = Harvest(found: seq<Entry>, done: set<Id>) | Crashed

  /**
   * The loop over mentions, with the `saved` snapshot taken before it.
   * `pick(id, attempt)` stands for the template choice of each attempt.
   */
  function Mentions(el: Eliza, maxLen: int, saved: set<Id>, ms: seq<Mention>, pick: (Id, nat) -> nat,
                    done: set<Id>): (r: Harvest)
    ensures r.Harvest? ==> done <= r.done && |r.found| <= |ms|
    ensures r.Crashed? <==> exists i :: 0 <= i < |ms| && AnswerTo(el, maxLen, saved, ms[i], pick).Crash?
    decreases |ms|
  {
    if |ms| == 0 then Harvest([], done)
    else
      var m := ms[0];
      var a := AnswerTo(el, maxLen, saved, m, pick);
      var next := if a.Refuse? then done + {m.id} else done;
      var rest := Mentions(el, maxLen, saved, ms[1..], pick, next);
      CrashShift(el, maxLen, saved, ms, pick);
      match a
      case Crash => Crashed
      case Refuse => rest
      case Reply(e) => if rest.Crashed? then Crashed else Harvest([e] + rest.found, rest.done)
      case Ignore => rest
      case Silent => rest
  }

  /** Some mention of `ms` raises exactly when the first does or one of the rest does. */
  lemma CrashShift(el: Eliza, maxLen: int, saved: set<Id>, ms: seq<Mention>, pick: (Id, nat) -> nat)
    requires |ms| > 0
    ensures (exists i :: 0 <= i < |ms| && AnswerTo(el, maxLen, saved, ms[i], pick).Crash?) <==>
      AnswerTo(el, maxLen, saved, ms[0], pick).Crash? ||
      exists i :: 0 <= i < |ms[1..]| && AnswerTo(el, maxLen, saved, ms[1..][i], pick).Crash?
  {
    if i :| 0 <= i < |ms| && AnswerTo(el, maxLen, saved, ms[i], pick).Crash? {
      if i > 0 {
        assert ms[1..][i - 1] == ms[i];
      }
    }
    if i :| 0 <= i < |ms[1..]| && AnswerTo(el, maxLen, saved, ms[1..][i], pick).Crash? {
      assert ms[i + 1] == ms[1..][i];
    }
  }

  /** Every id in `ids` is that of a mention of `ms`, not saved, naming whom it replies to, but not answerable. */
  predicate Refused(saved: set<Id>, ms: seq<Mention>, ids: set<Id>) {
    forall id :: id in ids ==>
      id !in saved && exists m :: m in ms && m.id == id && Addressed(m) && !Answerable(m)
  }

  /** Every entry is an answer, short enough once prefixed, to an answerable mention of `ms` that was not saved. */
  predicate Answers(maxLen: int, saved: set<Id>, ms: seq<Mention>, found: seq<Entry>) {
    forall e :: e in found ==>
      && e.to.Some? && |e.to.value + " " + e.title| <= maxLen && e.id !in saved
      && exists m :: m in ms && m.id == e.id && e.to == Some(FromName(m)) && Addressed(m) && Answerable(m)
  }

  /**
   * What the loop over mentions adds to `done` are exactly refused mentions,
   * and what it finds are answers to answerable ones.
   */
  lemma {:induction false} MentionsSound(el: Eliza, maxLen: int, saved: set<Id>, ms: seq<Mention>,
                                         pick: (Id, nat) -> nat, done: set<Id>)
    ensures var r := Mentions(el, maxLen, saved, ms, pick, done);
      r.Harvest? ==> Refused(saved, ms, r.done - done) && Answers(maxLen, saved, ms, r.found)
    decreases |ms|
  {
    if |ms| > 0 {
      var m := ms[0];
      var a := AnswerTo(el, maxLen, saved, m, pick);
      var next := if a.Refuse? then done + {m.id} else done;
      MentionsSound(el, maxLen, saved, ms[1..], pick, next);
      var rest := Mentions(el, maxLen, saved, ms[1..], pick, next);
      if rest.Harvest? && !a.Crash? {
        SoundStep(maxLen, saved, ms, done, next, rest.done, rest.found);
        if a.Reply? {
          AnswersCons(maxLen, saved, ms, a.entry, rest.found);
          assert Mentions(el, maxLen, saved, ms, pick, done) == Harvest([a.entry] + rest.found, rest.done);
        } else {
          assert Mentions(el, maxLen, saved, ms, pick, done) == rest;
        }
      }
    }
  }

  /** The step of `MentionsSound`: what the rest of the loop did is sound for the whole list. */
  lemma SoundStep(maxLen: int, saved: set<Id>, ms: seq<Mention>, done: set<Id>, next: set<Id>,
                  d: set<Id>, found: seq<Entry>)
    requires |ms| > 0
    requires next == done || (next == done + {ms[0].id} && Addressed(ms[0]) && ms[0].id !in saved && !Answerable(ms[0]))
    requires Refused(saved, ms[1..], d - next) && Answers(maxLen, saved, ms[1..], found)
    ensures Refused(saved, ms, d - done) && Answers(maxLen, saved, ms, found)
  {
    MentionsTail(ms);
  }

  /** Putting a reply to the first mention in front of sound answers. */
  lemma AnswersCons(maxLen: int, saved: set<Id>, ms: seq<Mention>, e: Entry, found: seq<Entry>)
    requires |ms| > 0 && Addressed(ms[0]) && ms[0].id !in saved && Answerable(ms[0])
    requires e.id == ms[0].id && e.to == Some(FromName(ms[0])) && |FromName(ms[0]) + " " + e.title| <= maxLen
    requires Answers(maxLen, saved, ms, found)
    ensures Answers(maxLen, saved, ms, [e] + found)
  {
    MentionsTail(ms);
  }

  lemma MentionsTail(ms: seq<Mention>)
    requires |ms| > 0
    ensures ms[0] in ms && forall x :: x in ms[1..] ==> x in ms
  {
  }

  /** Every refused mention of `ms` has its id in `done`. */
  predicate AllRefusedDone(saved: set<Id>, ms: seq<Mention>, done: set<Id>) {
    forall m :: m in ms && Addressed(m) && m.id !in saved && !Answerable(m) ==> m.id in done
  }

  /** Every reply built for a mention of `ms` is among the entries found. */
  predicate AllRepliesFound(el: Eliza, maxLen: int, saved: set<Id>, ms: seq<Mention>, pick: (Id, nat) -> nat,
                            found: seq<Entry>) {
    forall m :: m in ms && AnswerTo(el, maxLen, saved, m, pick).Reply? ==> AnswerTo(el, maxLen, saved, m, pick).entry in found
  }

  /**
   * The converse of `MentionsSound`: unless building an answer raised, every
   * refused mention ends up in `done` and every reply built ends up among
   * the entries found.
   */
  lemma {:induction false} MentionsComplete(el: Eliza, maxLen: int, saved: set<Id>, ms: seq<Mention>,
                                            pick: (Id, nat) -> nat, done: set<Id>)
    ensures var r := Mentions(el, maxLen, saved, ms, pick, done);
      r.Harvest? ==> AllRefusedDone(saved, ms, r.done) && AllRepliesFound(el, maxLen, saved, ms, pick, r.found)
    decreases |ms|
  {
    if |ms| > 0 {
      var m := ms[0];
      var a := AnswerTo(el, maxLen, saved, m, pick);
      var next := if a.Refuse? then done + {m.id} else done;
      MentionsComplete(el, maxLen, saved, ms[1..], pick, next);
      var rest := Mentions(el, maxLen, saved, ms[1..], pick, next);
      if rest.Harvest? && !a.Crash? {
        var found := if a.Reply? then [a.entry] + rest.found else rest.found;
        assert Mentions(el, maxLen, saved, ms, pick, done) == Harvest(found, rest.done);
        CompleteStep(el, maxLen, saved, ms, pick, next, rest.done, rest.found, found);
      }
    }
  }

  /** The step of `MentionsComplete`: the first mention's own contribution plus what the rest of the loop did. */
  lemma CompleteStep(el: Eliza, maxLen: int, saved: set<Id>, ms: seq<Mention>, pick: (Id, nat) -> nat,
                     next: set<Id>, d: set<Id>, restFound: seq<Entry>, found: seq<Entry>)
    requires |ms| > 0
    requires var a := AnswerTo(el, maxLen, saved, ms[0], pick);
      && (a.Refuse? ==> ms[0].id in next)
      && found == (if a.Reply? then [a.entry] + restFound else restFound)
    requires next <= d
    requires AllRefusedDone(saved, ms[1..], d) && AllRepliesFound(el, maxLen, saved, ms[1..], pick, restFound)
    ensures AllRefusedDone(saved, ms, d) && AllRepliesFound(el, maxLen, saved, ms, pick, found)
  {
    forall x | x in ms ensures x == ms[0] || x in ms[1..] {
      var i :| 0 <= i < |ms| && ms[i] == x;
      if i > 0 {
        assert ms[1..][i - 1] == x;
      }
    }
  }

  /** A mention naming no one it replies to, or already saved, is passed over without trace. */
  lemma SkippedMention(el: Eliza, maxLen: int, saved: set<Id>, m: Mention, ms: seq<Mention>,
                       pick: (Id, nat) -> nat, done: set<Id>)
    requires !Addressed(m) || m.id in saved
    ensures Mentions(el, maxLen, saved, [m] + ms, pick, done) == Mentions(el, maxLen, saved, ms, pick, done)
  {
    assert ([m] + ms)[1..] == ms;
  }

  /** A mention that is not a direct reply, or holds a link, goes to `done` and yields no entry. */
  lemma SpamMentionDone(el: Eliza, maxLen: int, saved: set<Id>, m: Mention, ms: seq<Mention>,
                        pick: (Id, nat) -> nat, done: set<Id>)
    requires Addressed(m) && m.id !in saved && !Answerable(m)
    ensures Mentions(el, maxLen, saved, [m] + ms, pick, done) == Mentions(el, maxLen, saved, ms, pick, done + {m.id})
  {
    assert ([m] + ms)[1..] == ms;
  }

  /**
   * `entries` of the responding feed: the answers to mentions, then the
   * feed's own entries read after the mentions updated `done`. `None` when
   * building an answer raised.
   */
  function RespondingEntries(el: Eliza, f: Feed, cfg: Config, ms: seq<Mention>, items: seq<Item>,
                             pick: (Id, nat) -> nat): (r: Option<Poll>)
    ensures r.None? <==> exists i :: 0 <= i < |ms| && AnswerTo(el, cfg.maxLen, Saved(f), ms[i], pick).Crash?
    ensures r.Some? ==>
      var h := Mentions(el, cfg.maxLen, Saved(f), ms, pick, f.done);
      var p := Entries(Feed(f.todo, h.done), cfg, items);
      && h.Harvest? && r.value.found == h.found + p.found && r.value.feed == p.feed
    ensures r.Some? ==> r.value.feed.todo == f.todo && f.done <= r.value.feed.done
    ensures r.Some? ==> forall j, k :: 0 <= j < k < |r.value.found| && r.value.found[k].to.Some? ==>
      r.value.found[j].to.Some?
    ensures r.Some? ==> forall e :: e in r.value.found && e.to.Some? ==>
      |e.to.value + " " + e.title| <= cfg.maxLen && e.id !in Saved(f)
    ensures r.Some? ==> forall e :: e in r.value.found && e.to.None? ==>
      |e.title| <= cfg.maxLen && !Ignored(cfg.ignore, e.title) && ItemOf(e) in items
  {
    MentionsSound(el, cfg.maxLen, Saved(f), ms, pick, f.done);
    match Mentions(el, cfg.maxLen, Saved(f), ms, pick, f.done)
    case Crashed => None
    case Harvest(es, d) =>
      var p := Entries(Feed(f.todo, d), cfg, items);
      AnswersFirst(es, p.found);
      Some(Poll(es + p.found, p.feed))
  }

  /** Entries that answer someone, put before entries that answer no one, stay before them. */
  lemma AnswersFirst(es: seq<Entry>, fs: seq<Entry>)
    requires forall e :: e in es ==> e.to.Some?
    requires forall e :: e in fs ==> e.to.None?
    ensures forall j, k :: 0 <= j < k < |es + fs| && (es + fs)[k].to.Some? ==> (es + fs)[j].to.Some?
  {
    var all := es + fs;
    forall k | |es| <= k < |all| ensures all[k].to.None? {
      assert all[k] == fs[k - |es|];
    }
    forall j | 0 <= j < |es| ensures all[j].to.Some? {
      assert all[j] == es[j];
    }
  }
}
