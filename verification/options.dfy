/**
 * `Options` in babbler/options.py. An option's final value is its
 * command-line value, appended to or subtracted from the configured default
 * when the option is appendable and the append or subtract switch is given.
 * Failing that it is the default, and failing that the answer typed at a
 * prompt. The settings are listed one per line, with the values in one column.
 */
module Options {
  import opened Wrappers
  import opened Text

  /** A value an option holds: a string, or an integer for the numeric options. */
  datatype Val = Str(s: string) | Int(n: int)

  /** The optparse `type` of an option, as far as the combining rules tell types apart. */
  datatype Kind = StringKind | OtherKind

  /** An option as declared: its destination, its flag (`--foo`), its type and its help text. */
  datatype Opt = Opt(dest: Option<string>, flag: string, kind: Kind, help: string)

  /** What combining a value with its default gives: a value, possibly none, or the error Python raises. */
  datatype Combined = Value(v: Option<Val>) | Raised

  /** The final value of one option, or the error that ends `parse_args`. */
  datatype Setting = Settled(val: Val) | Failed

  /** The declared options, the flags that may be appended to or subtracted from, and the configured defaults. */
  datatype Declared = Declared(opts: seq<Opt>, appendable: set<string>, defaults: map<string, Val>)

  /** What the command line gave: the two switches, and the values given, by destination. */
  datatype Command = Command(append: bool, subtract: bool, values: map<string, Val>)

  function Lookup(m: map<string, Val>, k: string): (r: Option<Val>)
    ensures r.Some? <==> k in m
    ensures r.Some? ==> r.value == m[k]
  {
    if k in m then Some(m[k]) else None
  }

  // ---------------------------------------------------------------------
  // Appending and subtracting
  // ---------------------------------------------------------------------

  /** `a + b`: concatenation or addition; mixing the types raises `TypeError`. */
  function Plus(a: Val, b: Val): (r: Combined)
    ensures r.Value? <==> (a.Str? && b.Str?) || (a.Int? && b.Int?)
  {
    match (a, b)
    case (Str(x), Str(y)) => Value(Some(Str(x + y)))
    case (Int(x), Int(y)) => Value(Some(Int(x + y)))
    case _ => Raised
  }

  /** The items of a comma-separated value, as `split(",")` gives them. */
  function Items(s: string): seq<string> { SplitOn(s, ',') }

  /** A string value without the leading comma that marks it as a continuation. */
  function Unmarked(v: string): (r: string)
    ensures StartsWith(v, ",") ==> "," + r == v
    ensures !StartsWith(v, ",") ==> r == v
  {
    if StartsWith(v, ",") then v[1..] else v
  }

  /**
   * `append`: with no value or no default the value stands as given;
   * otherwise it is added to the default, a string value after a comma.
   */
  function Append(kind: Kind, default: Option<Val>, value: Option<Val>): (r: Combined)
    ensures value.None? || default.None? ==> r == Value(value)
    ensures value.Some? && default.Some? && kind == StringKind && value.value.Int? ==> r.Raised?
    ensures value.Some? && default.Some? && kind == OtherKind && default.value.Int? && value.value.Int? ==>
      r == Value(Some(Int(default.value.n + value.value.n)))
    ensures r.Value? && value.Some? ==> r.v.Some? && (r.v.value.Str? <==> value.value.Str?)
    ensures value.Some? && default.Some? ==>
      (r.Raised? <==> if kind == StringKind then value.value.Int? || default.value.Int?
                      else value.value.Str? != default.value.Str?)
    ensures value.Some? && default.Some? && kind == StringKind && default.value.Str? && value.value.Str? ==>
      r == Value(Some(Str(default.value.s + "," + Unmarked(value.value.s))))
    ensures value.Some? && default.Some? && kind == OtherKind && default.value.Str? && value.value.Str? ==>
      r == Value(Some(Str(default.value.s + value.value.s)))
  {
    if value.None? || default.None? then Value(value)
    else if kind == StringKind then
      match value.value
      case Int(_) => Raised
      case Str(v) =>
        var marked := if StartsWith(v, ",") then v else "," + v;
        assert marked == "," + Unmarked(v);
        assert default.value.Str? ==> default.value.s + marked == default.value.s + "," + Unmarked(v);
        Plus(default.value, Str(marked))
    else Plus(default.value, value.value)
  }

  /** Appending to a string default gives the default's items followed by the value's. */
  lemma AppendItems(d: string, v: string)
    ensures var r := Append(StringKind, Some(Str(d)), Some(Str(v)));
      r.Value? && r.v.Some? && r.v.value.Str? && Items(r.v.value.s) == Items(d) + Items(Unmarked(v))
  {
    var w := Unmarked(v);
    assert d + (if StartsWith(v, ",") then v else "," + v) == d + [','] + w;
    SplitOnConcat(d, w, ',');
  }

  /** The items of `ds` that are not among `vs`, each once, in the order they first appear. */
  function Difference(ds: seq<string>, vs: seq<string>): (r: seq<string>)
    ensures forall x :: x in r <==> x in ds && x !in vs
    ensures forall i, j :: 0 <= i < j < |r| ==> r[i] != r[j]
    decreases |ds|
  {
    if |ds| == 0 then []
    else
      var rest := Difference(ds[1..], vs + [ds[0]]);
      assert forall x :: x in ds <==> x == ds[0] || x in ds[1..];
      if ds[0] in vs then rest
      else
        assert ds[0] !in rest;
        [ds[0]] + rest
  }

  /**
   * `subtract`: with no value or no default the value stands as given. A
   * string value without a leading comma removes its items from the
   * default's; anything else is `default - value`, which only integers
   * support.
   */
  function Subtract(kind: Kind, default: Option<Val>, value: Option<Val>): (r: Combined)
    ensures value.None? || default.None? ==> r == Value(value)
    ensures value.Some? && default.Some? && kind == StringKind && (value.value.Int? || StartsWith(value.value.s, ",")) ==> r.Raised?
    ensures value.Some? && default.Some? && kind == StringKind ==>
      (r.Raised? <==> value.value.Int? || StartsWith(value.value.s, ",") || default.value.Int?)
    ensures value.Some? && default.Some? && kind == OtherKind ==>
      (r.Value? <==> default.value.Int? && value.value.Int?)
    ensures value.Some? && default.Some? && kind == OtherKind && r.Value? ==>
      r == Value(Some(Int(default.value.n - value.value.n)))
  {
    if value.None? || default.None? then Value(value)
    else if kind == StringKind then
      match value.value
      case Int(_) => Raised
      case Str(v) =>
        if StartsWith(v, ",") then Raised
        else
          match default.value
          case Str(d) => Value(Some(Str(Join(Difference(Items(d), Items(v)), ","))))
          case Int(_) => Raised
    else
      match (default.value, value.value)
      case (Int(x), Int(y)) => Value(Some(Int(x - y)))
      case _ => Raised
  }

  /**
   * Subtracting from a string default leaves the default's items that the
   * value does not name, read back as `Difference` lists them; when none is
   * left the result is the empty string.
   */
  lemma SubtractItems(d: string, v: string)
    requires !StartsWith(v, ",")
    ensures var r := Subtract(StringKind, Some(Str(d)), Some(Str(v)));
      && r.Value? && r.v.Some? && r.v.value.Str?
      && if exists x :: x in Items(d) && x !in Items(v)
         then Items(r.v.value.s) == Difference(Items(d), Items(v))
         else r.v.value.s == ""
  {
    var diff := Difference(Items(d), Items(v));
    assert Subtract(StringKind, Some(Str(d)), Some(Str(v))) == Value(Some(Str(Join(diff, ","))));
    if |diff| > 0 {
      NoCommaInDifference(d, v);
      SplitOfJoin(diff, ',');
      assert diff[0] in Items(d) && diff[0] !in Items(v);
    } else {
      assert forall x :: x in Items(d) ==> x in Items(v);
    }
  }

  lemma NoCommaInDifference(d: string, v: string)
    ensures forall k :: 0 <= k < |Difference(Items(d), Items(v))| ==> ',' !in Difference(Items(d), Items(v))[k]
  {
    var diff := Difference(Items(d), Items(v));
    forall k | 0 <= k < |diff|
      ensures ',' !in diff[k]
    {
      assert diff[k] in Items(d);
      var i :| 0 <= i < |Items(d)| && Items(d)[i] == diff[k];
    }
  }

  // ---------------------------------------------------------------------
  // Settling each option
  // ---------------------------------------------------------------------

  /**
   * The value `parse_args` settles on for one option with a destination:
   * `parsed` is its command-line value, `default` its configured default and
   * `answer` the line typed at the prompt.
   */
  function Resolve(o: Opt, appendable: set<string>, append: bool, subtract: bool,
                   parsed: Option<Val>, default: Option<Val>, answer: string): (r: Setting)
    ensures r.Failed? ==> o.flag in appendable && (append || subtract) && parsed.Some? && default.Some?
    ensures parsed.None? ==> r == Settled(if default.Some? then default.value else Str(answer))
    ensures (o.flag !in appendable || (!append && !subtract)) && parsed.Some? ==> r == Settled(parsed.value)
    ensures o.flag in appendable && (append || subtract) ==>
      var c := if append then Append(o.kind, default, parsed) else Subtract(o.kind, default, parsed);
      && (r.Failed? <==> c.Raised?)
      && (c.Value? && c.v.Some? ==> r == Settled(c.v.value))
  {
    var combined :=
      if append && o.flag in appendable then Append(o.kind, default, parsed)
      else if subtract && o.flag in appendable then Subtract(o.kind, default, parsed)
      else Value(parsed);
    match combined
    case Raised => Failed
    case Value(v) =>
      if v.Some? then Settled(v.value)
      else if default.Some? then Settled(default.value)
      else Settled(Str(answer))
  }

  /** With both switches given, appending wins and subtracting is not done. */
  lemma AppendBeforeSubtract(o: Opt, appendable: set<string>, parsed: Option<Val>, default: Option<Val>, answer: string)
    requires o.flag in appendable && parsed.Some? && default.Some?
    ensures var r := Resolve(o, appendable, true, true, parsed, default, answer);
      && r == Resolve(o, appendable, true, false, parsed, default, answer)
      && (Append(o.kind, default, parsed).Raised? <==> r.Failed?)
      && (r.Settled? ==> Append(o.kind, default, parsed) == Value(Some(r.val)))
  {
  }

  /** With only the subtract switch, a plain string value takes its items out of a string default's. */
  lemma SubtractModeRemovesItems(o: Opt, appendable: set<string>, d: string, v: string, answer: string)
    requires o.flag in appendable && o.kind == StringKind && !StartsWith(v, ",")
    requires exists x :: x in Items(d) && x !in Items(v)
    ensures var r := Resolve(o, appendable, false, true, Some(Str(v)), Some(Str(d)), answer);
      r.Settled? && r.val.Str? && Items(r.val.s) == Difference(Items(d), Items(v))
  {
    SubtractItems(d, v);
  }

  /** With only the subtract switch, integers are subtracted, and mixing a string with an integer fails. */
  lemma SubtractModeNumbers(o: Opt, appendable: set<string>, d: Val, v: Val, answer: string)
    requires o.flag in appendable && o.kind == OtherKind
    ensures var r := Resolve(o, appendable, false, true, Some(v), Some(d), answer);
      && (d.Int? && v.Int? ==> r == Settled(Int(d.n - v.n)))
      && (d.Int? != v.Int? ==> r.Failed?)
  {
  }

  /** The prompt is shown, and its answer used, exactly when there is neither a value nor a default. */
  lemma PromptOnlyWhenUnset(o: Opt, appendable: set<string>, append: bool, subtract: bool,
                            parsed: Option<Val>, default: Option<Val>, answer: string, other: string)
    ensures parsed.None? && default.None? ==>
      Resolve(o, appendable, append, subtract, parsed, default, answer) == Settled(Str(answer))
    ensures parsed.Some? || default.Some? ==>
      Resolve(o, appendable, append, subtract, parsed, default, answer) ==
      Resolve(o, appendable, append, subtract, parsed, default, other)
  {
  }

  /** The setting of one option, as the loop of `parse_args` computes it. */
  function SettingOf(d: Declared, cmd: Command, answer: string -> string, o: Opt): Setting
    requires o.dest.Some?
  {
    Resolve(o, d.appendable, cmd.append, cmd.subtract,
            Lookup(cmd.values, o.dest.value), Lookup(d.defaults, o.dest.value), answer(o.help))
  }

  /** The option has a destination and settling it raises. */
  predicate FailsOn(d: Declared, cmd: Command, answer: string -> string, o: Opt) {
    o.dest.Some? && SettingOf(d, cmd, answer, o).Failed?
  }

  /**
   * The loop of `parse_args` over the first `n` declared options: each
   * option with a destination is settled and stored under it, a later
   * option overwriting an earlier one of the same destination. `None`
   * when settling an option raises. `answer` gives the line typed at the
   * prompt that shows an option's help text.
   */
  function Settle(d: Declared, cmd: Command, answer: string -> string, n: nat): Option<map<string, Val>>
    requires n <= |d.opts|
  {
    if n == 0 then Some(map[])
    else
      var prior := Settle(d, cmd, answer, n - 1);
      var o := d.opts[n - 1];
      if prior.None? || o.dest.None? then prior
      else
        match SettingOf(d, cmd, answer, o)
        case Failed => None
        case Settled(v) => Some(prior.value[o.dest.value := v])
  }

  /**
   * `parse_args` over the first `n` declared options. It fails exactly when
   * settling some option raises, and otherwise stores a value under every
   * destination and nothing else.
   */
  function ParseArgs(d: Declared, cmd: Command, answer: string -> string, n: nat): (r: Option<map<string, Val>>)
    requires n <= |d.opts|
    ensures r.None? <==> exists k :: 0 <= k < n && FailsOn(d, cmd, answer, d.opts[k])
    ensures r.Some? ==> forall name :: name in r.value <==> exists k :: 0 <= k < n && d.opts[k].dest == Some(name)
  {
    SettleFails(d, cmd, answer, n);
    SettleKeys(d, cmd, answer, n);
    Settle(d, cmd, answer, n)
  }

  /** The loop fails exactly when settling one of its options raises. */
  lemma {:induction false} SettleFails(d: Declared, cmd: Command, answer: string -> string, n: nat)
    requires n <= |d.opts|
    ensures Settle(d, cmd, answer, n).None? <==> exists k :: 0 <= k < n && FailsOn(d, cmd, answer, d.opts[k])
  {
    if n > 0 {
      SettleFails(d, cmd, answer, n - 1);
      if FailsOn(d, cmd, answer, d.opts[n - 1]) {
        assert Settle(d, cmd, answer, n).None?;
      }
    }
  }

  /** A loop that gets through its options stores under exactly their destinations. */
  lemma {:induction false} SettleKeys(d: Declared, cmd: Command, answer: string -> string, n: nat)
    requires n <= |d.opts|
    ensures Settle(d, cmd, answer, n).Some? ==>
      forall name :: name in Settle(d, cmd, answer, n).value <==> exists k :: 0 <= k < n && d.opts[k].dest == Some(name)
  {
    if n > 0 && Settle(d, cmd, answer, n).Some? {
      SettleKeys(d, cmd, answer, n - 1);
      var r := Settle(d, cmd, answer, n).value;
      forall name
        ensures name in r <==> exists k :: 0 <= k < n && d.opts[k].dest == Some(name)
      {
        if name in r && d.opts[n - 1].dest != Some(name) {
          assert name in Settle(d, cmd, answer, n - 1).value;
        }
      }
    }
  }

  /** `r` holds a map that stores the setting `s` under `name`. */
  predicate StoredUnder(r: Option<map<string, Val>>, name: string, s: Setting) {
    r.Some? && name in r.value && s == Settled(r.value[name])
  }

  /** The option settled last under a destination decides its value. */
  lemma LastWins(d: Declared, cmd: Command, answer: string -> string, n: nat, k: nat)
    requires k < n <= |d.opts| && d.opts[k].dest.Some?
    requires forall j :: k < j < n ==> d.opts[j].dest != d.opts[k].dest
    requires ParseArgs(d, cmd, answer, n).Some?
    ensures var r := ParseArgs(d, cmd, answer, n).value;
      d.opts[k].dest.value in r && SettingOf(d, cmd, answer, d.opts[k]) == Settled(r[d.opts[k].dest.value])
  {
    LastWinsFrom(d, cmd, answer, n, k);
  }

  /** `LastWins` stated over the loop itself. */
  lemma {:induction false} LastWinsFrom(d: Declared, cmd: Command, answer: string -> string, n: nat, k: nat)
    requires k < n <= |d.opts| && d.opts[k].dest.Some?
    requires forall j :: k < j < n ==> d.opts[j].dest != d.opts[k].dest
    requires Settle(d, cmd, answer, n).Some?
    ensures StoredUnder(Settle(d, cmd, answer, n), d.opts[k].dest.value, SettingOf(d, cmd, answer, d.opts[k]))
  {
    if k == n - 1 {
      StoredLast(d, cmd, answer, n);
    } else {
      PriorSettled(d, cmd, answer, n);
      LastWinsFrom(d, cmd, answer, n - 1, k);
      StoredEarlier(d, cmd, answer, n, d.opts[k].dest.value, SettingOf(d, cmd, answer, d.opts[k]));
    }
  }

  /** A loop that gets through `n` options got through the first `n - 1`. */
  lemma PriorSettled(d: Declared, cmd: Command, answer: string -> string, n: nat)
    requires 0 < n <= |d.opts| && Settle(d, cmd, answer, n).Some?
    ensures Settle(d, cmd, answer, n - 1).Some?
  {
  }

  /** The step of `LastWins` for the option settled last. */
  lemma StoredLast(d: Declared, cmd: Command, answer: string -> string, n: nat)
    requires 0 < n <= |d.opts| && d.opts[n - 1].dest.Some?
    requires Settle(d, cmd, answer, n).Some?
    ensures StoredUnder(Settle(d, cmd, answer, n), d.opts[n - 1].dest.value, SettingOf(d, cmd, answer, d.opts[n - 1]))
  {
  }

  /** The step of `LastWins` past a later option with another destination. */
  lemma StoredEarlier(d: Declared, cmd: Command, answer: string -> string, n: nat, name: string, s: Setting)
    requires 0 < n <= |d.opts| && d.opts[n - 1].dest != Some(name)
    requires Settle(d, cmd, answer, n).Some?
    requires StoredUnder(Settle(d, cmd, answer, n - 1), name, s)
    ensures StoredUnder(Settle(d, cmd, answer, n), name, s)
  {
  }

  // ---------------------------------------------------------------------
  // Listing the settings
  // ---------------------------------------------------------------------

  function DigitChar(d: nat): char
    requires d < 10
  {
    ('0' as int + d) as char
  }

  /** The number a string of decimal digits stands for. */
  function DigitsValue(s: string): nat
    requires forall k :: 0 <= k < |s| ==> IsDigit(s[k])
  {
    if |s| == 0 then 0
    else
      assert IsDigit(s[|s| - 1]);
      DigitsValue(s[..|s| - 1]) * 10 + (s[|s| - 1] as int - '0' as int)
  }

  /** The decimal digits of `n`: they read back as `n`, with no leading zero. */
  function Decimal(n: nat): (r: string)
    ensures |r| > 0 && forall k :: 0 <= k < |r| ==> IsDigit(r[k])
    ensures DigitsValue(r) == n
    ensures r[0] == '0' ==> r == "0"
    decreases n
  {
    if n < 10 then [DigitChar(n)]
    else
      var h := Decimal(n / 10);
      var r := h + [DigitChar(n % 10)];
      assert r[..|r| - 1] == h;
      r
  }

  /** `"%s" % v`. */
  function Show(v: Val): string {
    match v
    case Str(s) => s
    case Int(n) => if n < 0 then "-" + Decimal(-n) else Decimal(n)
  }

  /** The length of the longest key: `len(max(keys, key=len))`. */
  function Longest(keys: seq<string>): (m: nat)
    ensures forall k :: 0 <= k < |keys| ==> |keys[k]| <= m
    ensures |keys| > 0 ==> exists k :: 0 <= k < |keys| && |keys[k]| == m
  {
    if |keys| == 0 then 0
    else
      var rest := Longest(keys[1..]);
      if |keys[0]| >= rest then |keys[0]| else rest
  }

  /** One line of the listing: the name and a colon, dotted out to `padding`, a space, then the value. */
  function Line(name: string, padding: nat, v: Val): string {
    LJust(name + ": ", padding, '.') + " " + Show(v)
  }

  /** Every declared option has a destination with a stored value. */
  predicate Listable(opts: seq<Opt>, vals: map<string, Val>) {
    forall i :: 0 <= i < |opts| ==> opts[i].dest.Some? && opts[i].dest.value in vals
  }

  /** The lines of the listing, one per declared option, in declaration order. */
  function Lines(opts: seq<Opt>, padding: nat, vals: map<string, Val>): (r: seq<string>)
    requires Listable(opts, vals)
    ensures |r| == |opts|
    ensures forall i :: 0 <= i < |opts| ==> r[i] == Line(opts[i].dest.value, padding, vals[opts[i].dest.value])
  {
    if |opts| == 0 then [] else [Line(opts[0].dest.value, padding, vals[opts[0].dest.value])] + Lines(opts[1..], padding, vals)
  }

  /**
   * A line of the listing for `name` and `v`: the name and a colon, dots up
   * to column `pad`, a space, then the value.
   */
  predicate Aligned(line: string, name: string, pad: nat, v: Val) {
    && |line| == pad + 1 + |Show(v)|
    && StartsWith(line, name + ": ")
    && (forall k :: |name| + 2 <= k < pad ==> line[k] == '.')
    && line[pad] == ' ' && line[pad + 1..] == Show(v)
  }

  /** No declared option's name or value holds a newline. */
  predicate NoNewlines(opts: seq<Opt>, vals: map<string, Val>)
    requires Listable(opts, vals)
  {
    forall i :: 0 <= i < |opts| ==> '\n' !in opts[i].dest.value && '\n' !in Show(vals[opts[i].dest.value])
  }

  /**
   * `__str__`: `keys` lists the stored destinations. `None` where Python
   * raises: no key at all (`max` of nothing), an option without a
   * destination, or one with no stored value. Otherwise, when no name or
   * value holds a newline, the listing splits into one line per option,
   * each with its value in the column five past the longest name.
   */
  function Format(opts: seq<Opt>, keys: seq<string>, vals: map<string, Val>): (r: Option<string>)
    requires forall k :: k in keys <==> k in vals
    ensures r.None? <==> |keys| == 0 || !Listable(opts, vals)
    ensures r.Some? ==> r.value == Join(Lines(opts, Longest(keys) + 5, vals), "\n")
    ensures r.Some? && |opts| > 0 && NoNewlines(opts, vals) ==>
      var ls := SplitOn(r.value, '\n');
      && |ls| == |opts|
      && forall i :: 0 <= i < |opts| ==> Aligned(ls[i], opts[i].dest.value, Longest(keys) + 5, vals[opts[i].dest.value])
  {
    if |keys| == 0 || !Listable(opts, vals) then None
    else
      var pad := Longest(keys) + 5;
      var ls := Lines(opts, pad, vals);
      assert forall i :: 0 <= i < |opts| ==> |opts[i].dest.value| + 2 <= pad by {
        forall i | 0 <= i < |opts|
          ensures |opts[i].dest.value| + 2 <= pad
        {
          LongestBounds(keys, opts[i].dest.value);
        }
      }
      LinesAligned(opts, pad, vals);
      assert |opts| > 0 && NoNewlines(opts, vals) ==> SplitOn(Join(ls, "\n"), '\n') == ls by {
        if |opts| > 0 && NoNewlines(opts, vals) {
          FormatLines(opts, pad, vals);
        }
      }
      Some(Join(ls, "\n"))
  }

  /** A stored name is no longer than the longest key. */
  lemma LongestBounds(keys: seq<string>, name: string)
    requires name in keys
    ensures |name| <= Longest(keys)
  {
    var j :| 0 <= j < |keys| && keys[j] == name;
  }

  /** Every line puts its value in column `pad` when the padding leaves room for each name and its colon. */
  lemma LinesAligned(opts: seq<Opt>, pad: nat, vals: map<string, Val>)
    requires Listable(opts, vals)
    requires forall i :: 0 <= i < |opts| ==> |opts[i].dest.value| + 2 <= pad
    ensures forall i :: 0 <= i < |opts| ==>
      Aligned(Lines(opts, pad, vals)[i], opts[i].dest.value, pad, vals[opts[i].dest.value])
  {
    forall i | 0 <= i < |opts|
      ensures Aligned(Lines(opts, pad, vals)[i], opts[i].dest.value, pad, vals[opts[i].dest.value])
    {
      LineLayout(opts[i].dest.value, pad, vals[opts[i].dest.value]);
    }
  }

  /** The layout of one line whose padding leaves room for the name and its colon. */
  lemma LineLayout(name: string, pad: nat, v: Val)
    requires |name| + 2 <= pad
    ensures Aligned(Line(name, pad, v), name, pad, v)
  {
    var head := LJust(name + ": ", pad, '.');
    var line := head + " " + Show(v);
    assert line[..|name + ": "|] == head[..|name + ": "|];
    assert forall k :: |name| + 2 <= k < pad ==> line[k] == head[k];
  }

  /** A line holds a newline only if its name or its value does. */
  lemma LineHasNoNewline(name: string, pad: nat, v: Val)
    requires '\n' !in name && '\n' !in Show(v)
    ensures '\n' !in Line(name, pad, v)
  {
    var p := name + ": ";
    var head := LJust(p, pad, '.');
    assert '\n' !in p;
    forall k | 0 <= k < |head|
      ensures head[k] != '\n'
    {
      if k < |p| {
        assert head[..|p|] == p;
        assert head[k] == p[k];
      }
    }
    assert Line(name, pad, v) == head + (" " + Show(v));
  }

  /** Splitting the joined lines at newlines gives them back, when no name or value holds a newline. */
  lemma FormatLines(opts: seq<Opt>, pad: nat, vals: map<string, Val>)
    requires Listable(opts, vals) && |opts| > 0 && NoNewlines(opts, vals)
    ensures SplitOn(Join(Lines(opts, pad, vals), "\n"), '\n') == Lines(opts, pad, vals)
  {
    var ls := Lines(opts, pad, vals);
    forall i | 0 <= i < |ls|
      ensures '\n' !in ls[i]
    {
      LineHasNoNewline(opts[i].dest.value, pad, vals[opts[i].dest.value]);
    }
    SplitOfJoin(ls, '\n');
  }
}
