/** The layered configuration registry: defaults, runtime overrides and a truncated log of changes. */
module ConfigRegistry {
  import opened Wrappers

  /** A float: rounding is not modelled, its special values are. */
  datatype Float = Finite(r: real) | Infinite(negative: bool) | NotANumber

  datatype Value = Null | Boolean(b: bool) | Whole(i: int) | Number(x: Float) | Text(s: string) | Table(rendering: string)

  datatype Range = Range(min: real, max: real)

  datatype Change = Change(key: string, before: Value, after: Value, source: string)

  const LOG_LIMIT: nat := 100

  // ---- Validation ----

  /** How a text converts to a number; the parsing itself is not modelled. */
  datatype Parsers = Parsers(parseInt: string -> Option<int>, parseFloat: string -> Option<Float>)

  /** int() cuts a number towards zero. */
  function Truncate(r: real): int {
    if r >= 0.0 then r.Floor else -((-r).Floor)
  }

  /** A conversion succeeds, is refused, or raises an error that validation does not catch. */
  datatype Conversion = To(value: Value) | Refused | Overflow

  /** type(default)(value), or the value itself when it already has the default's type; a boolean counts as an integer. */
  function Convert(p: Parsers, default: Value, value: Value): Conversion {
    match default
    case Whole(_) =>
      (match value
       case Whole(_) => To(value)
       case Boolean(_) => To(value)
       case Number(Finite(r)) => To(Whole(Truncate(r)))
       case Number(Infinite(_)) => Overflow
       case Text(s) => (match p.parseInt(s) case Some(i) => To(Whole(i)) case None => Refused)
       case _ => Refused)
    case Number(_) =>
      (match value
       case Number(_) => To(value)
       case Whole(i) => To(Number(Finite(i as real)))
       case Boolean(b) => To(Number(Finite(if b then 1.0 else 0.0)))
       case Text(s) => (match p.parseFloat(s) case Some(x) => To(Number(x)) case None => Refused)
       case _ => Refused)
    case _ => To(value)
  }

  /** The number a value compares as, if it can be compared with numbers at all. */
  function Amount(v: Value): Option<Float> {
    match v
    case Whole(i) => Some(Finite(i as real))
    case Number(x) => Some(x)
    case Boolean(b) => Some(Finite(if b then 1.0 else 0.0))
    case _ => None
  }

  predicate Below(x: Float, bound: real) {
    match x
    case Finite(r) => r < bound
    case Infinite(negative) => negative
    case NotANumber => false
  }

  predicate Above(x: Float, bound: real) {
    match x
    case Finite(r) => r > bound
    case Infinite(negative) => !negative
    case NotANumber => false
  }

  predicate Within(x: Float, rule: Range) {
    x.Finite? && rule.min <= x.r <= rule.max
  }

  /** Raised stands for an error that leaves the validation. */
  datatype Verdict = Accepted | WrongType | BelowMinimum | AboveMaximum | Raised

  /** The number that is compared with the range. */
  function Checked(p: Parsers, default: Value, value: Value): Option<Float> {
    match Convert(p, default, value)
    case To(converted) => Amount(converted)
    case _ => None
  }

  function Validate(p: Parsers, default: Value, rule: Option<Range>, value: Value): (v: Verdict)
    ensures rule.None? ==> v == Accepted
    ensures rule.Some? ==> (v == Accepted <==>
      Checked(p, default, value).Some?
      && (Within(Checked(p, default, value).value, rule.value) || Checked(p, default, value).value.NotANumber?))
    ensures v == WrongType <==> rule.Some? && Convert(p, default, value).Refused?
    ensures v == Raised <==> rule.Some? && !Convert(p, default, value).Refused? && Checked(p, default, value).None?
    ensures v == BelowMinimum ==> Below(Checked(p, default, value).value, rule.value.min)
    ensures v == AboveMaximum ==> Above(Checked(p, default, value).value, rule.value.max)
  {
    if rule.None? then Accepted
    else match Convert(p, default, value)
      case Refused => WrongType
      case Overflow => Raised
      case To(converted) =>
        if Amount(converted).None? then Raised
        else if Below(Amount(converted).value, rule.value.min) then BelowMinimum
        else if Above(Amount(converted).value, rule.value.max) then AboveMaximum
        else Accepted
  }

  lemma TruncateAtLeast(r: real, min: int)
    ensures min <= Truncate(r) <==> if min > 0 then min as real <= r else min as real - 1.0 < r
  {
  }

  /** With an integer default a number is accepted up to one short of the next integer outside the range, away from zero. */
  lemma NumberAcceptedIff(p: Parsers, default: int, min: int, max: int, r: real)
    ensures Validate(p, Whole(default), Some(Range(min as real, max as real)), Number(Finite(r))) == Accepted
       <==> (if min > 0 then min as real <= r else min as real - 1.0 < r)
            && (if max >= 0 then r < max as real + 1.0 else r <= max as real)
  {
    assert Convert(p, Whole(default), Number(Finite(r))) == To(Whole(Truncate(r)));
    TruncateAtLeast(r, min);
    TruncateAtLeast(-r, -max);
    assert Truncate(-r) == -Truncate(r);
  }

  /** The check looks at the converted value but the original is stored: an accepted number can exceed its maximum. */
  lemma AcceptedMayExceedMaximum(p: Parsers)
    ensures var batch, value := Range(50.0, 10000.0), Finite(10000.9);
      Validate(p, Whole(500), Some(batch), Number(value)) == Accepted && Above(value, batch.max)
  {
    NumberAcceptedIff(p, 500, 50, 10000, 10000.9);
  }

  /** With a minimum of 0 an accepted number can also fall below it. */
  lemma AcceptedMayFallBelowMinimum(p: Parsers)
    ensures var synthetic, value := Range(0.0, 20.0), Finite(-0.5);
      Validate(p, Whole(4), Some(synthetic), Number(value)) == Accepted && Below(value, synthetic.min)
  {
    NumberAcceptedIff(p, 4, 0, 20, -0.5);
  }

  predicate Numeric(default: Value) {
    default.Whole? || default.Number?
  }

  function Compared(x: real, rule: Range): Verdict {
    if x < rule.min then BelowMinimum else if x > rule.max then AboveMaximum else Accepted
  }

  /** Integers and booleans are compared as they are under any numeric default, finite floats under a float default. */
  lemma ExactNumbersAreCompared(p: Parsers, default: Value, d: Float, rule: Range, i: int, b: bool, r: real)
    requires Numeric(default)
    ensures Validate(p, default, Some(rule), Whole(i)) == Compared(i as real, rule)
    ensures Validate(p, default, Some(rule), Boolean(b)) == Compared(if b then 1.0 else 0.0, rule)
    ensures Validate(p, Number(d), Some(rule), Number(Finite(r))) == Compared(r, rule)
  {
  }

  predicate NextTowardsZero(n: int, r: real) {
    if r >= 0.0 then n as real <= r < n as real + 1.0 else n as real - 1.0 < r <= n as real
  }

  lemma TruncateIs(r: real, n: int)
    requires NextTowardsZero(n, r)
    ensures Truncate(r) == n
  {
  }

  /** A fraction under an integer default is compared by the integer next to it towards zero. */
  lemma FractionsAreTruncated(p: Parsers, default: int, rule: Range, r: real, n: int)
    requires NextTowardsZero(n, r)
    ensures Validate(p, Whole(default), Some(rule), Number(Finite(r))) == Compared(n as real, rule)
  {
    TruncateIs(r, n);
    assert Convert(p, Whole(default), Number(Finite(r))) == To(Whole(n));
  }

  /** What is no number is of the wrong type, unparsable texts included; infinities lie outside, or raise when cut. */
  lemma OthersAreRefused(p: Parsers, default: Value, i: int, d: Float, rule: Range, s: string)
    requires Numeric(default)
    ensures Validate(p, default, Some(rule), Null) == Validate(p, default, Some(rule), Table(s)) == WrongType
    ensures p.parseInt(s) == None ==> Validate(p, Whole(i), Some(rule), Text(s)) == WrongType
    ensures p.parseFloat(s) == None ==> Validate(p, Number(d), Some(rule), Text(s)) == WrongType
    ensures Validate(p, Whole(i), Some(rule), Number(NotANumber)) == WrongType
    ensures Validate(p, Number(d), Some(rule), Number(Infinite(true))) == BelowMinimum
    ensures Validate(p, Number(d), Some(rule), Number(Infinite(false))) == AboveMaximum
    ensures forall negative :: Validate(p, Whole(i), Some(rule), Number(Infinite(negative))) == Raised
  {
  }

  /** The types validation takes without converting. */
  predicate HasTypeOf(default: Value, value: Value) {
    if default.Whole? then value.Whole? || value.Boolean? else value.Number?
  }

  /** The value is what the range check looked at. */
  predicate StoredAsChecked(p: Parsers, default: Value, value: Value) {
    Convert(p, default, value) == To(value)
  }

  /** Of the values accepted under a rule, those of the default's type are stored as they were checked, and only those. */
  lemma StoredAsCheckedIff(p: Parsers, default: Value, rule: Range, value: Value)
    requires Numeric(default) && Validate(p, default, Some(rule), value) == Accepted
    ensures StoredAsChecked(p, default, value) <==> HasTypeOf(default, value)
  {
  }

  predicate IsFraction(value: Value) {
    value.Number? && value.x.Finite? && value.x.r.Floor as real != value.x.r
  }

  lemma FloorOfWhole(r: real, n: int)
    requires r == n as real
    ensures r.Floor == n
  {
  }

  lemma TruncateKeepsIff(r: real)
    ensures Truncate(r) as real == r <==> r.Floor as real == r
  {
    if r.Floor as real == r {
      TruncateIs(r, r.Floor);
    }
    if Truncate(r) as real == r {
      FloorOfWhole(r, Truncate(r));
    }
  }

  /** What is stored counts as the number that was checked, unless it is a text, or a fraction where an integer is the default. */
  lemma SameAmountIff(p: Parsers, default: Value, rule: Range, value: Value)
    requires Numeric(default) && Validate(p, default, Some(rule), value) == Accepted
    ensures Amount(value) == Checked(p, default, value) <==> !value.Text? && !(default.Whole? && IsFraction(value))
  {
    if default.Whole? && value.Number? && value.x.Finite? {
      assert Checked(p, default, value) == Some(Finite(Truncate(value.x.r) as real));
      TruncateKeepsIff(value.x.r);
    }
  }

  /** A text is accepted exactly when it parses to a number in the range, or, as a float, to not-a-number. */
  lemma TextAcceptedIff(p: Parsers, default: Value, rule: Range, s: string)
    requires Numeric(default)
    ensures Validate(p, default, Some(rule), Text(s)) == Accepted
       <==> if default.Whole? then p.parseInt(s).Some? && Within(Finite(p.parseInt(s).value as real), rule)
            else p.parseFloat(s).Some? && (Within(p.parseFloat(s).value, rule) || p.parseFloat(s).value.NotANumber?)
  {
  }

  /** For instance the batch size can become a text. */
  lemma AcceptedMayBeText(p: Parsers)
    requires p.parseInt("500") == Some(500)
    ensures Validate(p, Whole(500), Some(Range(50.0, 10000.0)), Text("500")) == Accepted
    ensures !StoredAsChecked(p, Whole(500), Text("500")) && Amount(Text("500")) == None
  {
    TextAcceptedIff(p, Whole(500), Range(50.0, 10000.0), "500");
  }

  /** With a float default not-a-number passes every range; apart from it exactly the floats in the range pass. */
  lemma FloatAcceptedIff(p: Parsers, default: Float, rule: Range, x: Float)
    ensures Validate(p, Number(default), Some(rule), Number(x)) == Accepted <==> Within(x, rule) || x.NotANumber?
  {
  }

  // ---- The change log ----

  function Default(defaults: map<string, Value>, key: string): Value {
    if key in defaults then defaults[key] else Null
  }

  /** The value a key has when no environment variable is set. */
  function Effective(defaults: map<string, Value>, overrides: map<string, Value>, key: string): Value {
    if key in overrides then overrides[key] else Default(defaults, key)
  }

  /** The entries of a key lead from the first value to the last, each starting where the previous one ended. */
  ghost predicate Chains(log: seq<Change>, key: string, first: Value, last: Value) {
    if log == [] then first == last
    else
      var c, init := log[|log| - 1], log[..|log| - 1];
      if c.key == key then c.after == last && Chains(init, key, first, c.before) else Chains(init, key, first, last)
  }

  /** The value of a key after applying the log to a starting value. */
  function Replay(log: seq<Change>, key: string, first: Value): Value {
    if log == [] then first
    else
      var c := log[|log| - 1];
      if c.key == key then c.after else Replay(log[..|log| - 1], key, first)
  }

  /** The value of a key after undoing the log, newest entry first. */
  function Undo(log: seq<Change>, key: string, last: Value): Value {
    if log == [] then last
    else
      var c := log[|log| - 1];
      Undo(log[..|log| - 1], key, if c.key == key then c.before else last)
  }

  lemma {:induction false} ReplayFollowsChain(log: seq<Change>, key: string, first: Value, last: Value)
    requires Chains(log, key, first, last)
    ensures Replay(log, key, first) == last
  {
    if log != [] && log[|log| - 1].key != key {
      ReplayFollowsChain(log[..|log| - 1], key, first, last);
    }
  }

  /** Whatever part of the log is retained chains by itself, and undoing it recovers the value before its oldest entry. */
  lemma {:induction false} RetainedPartRewinds(full: seq<Change>, from: nat, key: string, first: Value, last: Value)
    requires from <= |full| && Chains(full, key, first, last)
    ensures Chains(full[..from], key, first, Replay(full[..from], key, first))
    ensures Chains(full[from..], key, Replay(full[..from], key, first), last)
    ensures Undo(full[from..], key, last) == Replay(full[..from], key, first)
  {
    if from < |full| {
      var c, init := full[|full| - 1], full[..|full| - 1];
      RetainedPartRewinds(init, from, key, first, if c.key == key then c.before else last);
      assert init[..from] == full[..from];
      assert full[from..][..|full| - from - 1] == init[from..];
    } else {
      assert full[..from] == full && full[from..] == [];
      ReplayFollowsChain(full, key, first, last);
    }
  }

  /** In a chained log the next entry of a key starts where the previous one ended, and the last one ends at the last value. */
  lemma {:induction false} NeighboursLink(log: seq<Change>, key: string, first: Value, last: Value, i: nat, j: nat)
    requires Chains(log, key, first, last)
    requires i < j <= |log| && log[i].key == key && forall k :: i < k < j ==> log[k].key != key
    requires j < |log| ==> log[j].key == key
    ensures log[i].after == if j < |log| then log[j].before else last
  {
    var c, init := log[|log| - 1], log[..|log| - 1];
    if j == |log| {
      if i < |log| - 1 {
        NeighboursLink(init, key, first, last, i, |init|);
      }
    } else if j == |log| - 1 {
      NeighboursLink(init, key, first, c.before, i, j);
    } else {
      NeighboursLink(init, key, first, if c.key == key then c.before else last, i, j);
    }
  }

  /** The entry at this position is the newest one of the key. */
  predicate IsLatest(log: seq<Change>, key: string, i: nat)
    requires i < |log|
  {
    log[i].key == key && forall k :: i < k < |log| ==> log[k].key != key
  }

  ghost predicate IsSuffix(log: seq<Change>, full: seq<Change>) {
    |log| <= |full| && log == full[|full| - |log|..]
  }

  function Trim(log: seq<Change>): seq<Change> {
    if |log| > LOG_LIMIT then log[|log| - LOG_LIMIT..] else log
  }

  lemma TrimIsShort(log: seq<Change>)
    ensures |Trim(log)| <= LOG_LIMIT
  {
  }

  lemma AppendKeepsSuffix(log: seq<Change>, full: seq<Change>, change: Change)
    requires IsSuffix(log, full)
    ensures IsSuffix(log + [change], full + [change]) && IsSuffix(Trim(log + [change]), full + [change])
  {
  }

  /** Every change ever made leads, for each key, from its default to its effective value. */
  ghost predicate Explains(full: seq<Change>, defaults: map<string, Value>, overrides: map<string, Value>) {
    forall key :: Chains(full, key, Default(defaults, key), Effective(defaults, overrides, key))
  }

  lemma SetIsExplained(full: seq<Change>, defaults: map<string, Value>, overrides: map<string, Value>,
                       key: string, value: Value, source: string)
    requires Explains(full, defaults, overrides)
    ensures Explains(full + [Change(key, Effective(defaults, overrides, key), value, source)], defaults, overrides[key := value])
  {
  }

  lemma ResetIsExplained(full: seq<Change>, defaults: map<string, Value>, overrides: map<string, Value>,
                         key: string, source: string)
    requires Explains(full, defaults, overrides) && key in overrides
    ensures Explains(full + [Change(key, overrides[key], Default(defaults, key), source)], defaults, overrides - {key})
  {
  }

  function RuleOf(rules: map<string, Range>, key: string): Option<Range> {
    if key in rules then Some(rules[key]) else None
  }

  ghost predicate AllAccepted(p: Parsers, defaults: map<string, Value>, rules: map<string, Range>, overrides: map<string, Value>) {
    forall key :: key in overrides ==> Validate(p, Default(defaults, key), RuleOf(rules, key), overrides[key]) == Accepted
  }

  lemma SetStaysAccepted(p: Parsers, defaults: map<string, Value>, rules: map<string, Range>, overrides: map<string, Value>,
                         key: string, value: Value)
    requires AllAccepted(p, defaults, rules, overrides)
    requires Validate(p, Default(defaults, key), RuleOf(rules, key), value) == Accepted
    ensures AllAccepted(p, defaults, rules, overrides[key := value])
  {
  }

  /** The log never holds more entries beyond its limit than keys have been given back. */
  predicate Bounded(log: seq<Change>, overrides: map<string, Value>, touched: set<string>) {
    overrides.Keys <= touched && |log| + |overrides| <= LOG_LIMIT + |touched|
  }

  lemma KeysFit(m: map<string, Value>, keys: set<string>)
    requires m.Keys <= keys
    ensures |m| <= |keys|
  {
    assert keys == m.Keys + (keys - m.Keys);
    assert |m| == |m.Keys|;
  }

  lemma SetStaysBounded(log: seq<Change>, overrides: map<string, Value>, touched: set<string>, key: string, value: Value)
    requires |log| <= LOG_LIMIT && overrides.Keys <= touched
    ensures Bounded(log, overrides[key := value], touched + {key})
  {
    KeysFit(overrides[key := value], touched + {key});
  }

  lemma ResetStaysBounded(log: seq<Change>, overrides: map<string, Value>, touched: set<string>, key: string, change: Change)
    requires Bounded(log, overrides, touched) && key in overrides
    ensures Bounded(log + [change], overrides - {key}, touched)
  {
  }

  // ---- The registry ----

  /** Configuration, overrides and retained log, with every change ever made and every key ever overridden. */
  datatype State = State(parsers: Parsers, defaults: map<string, Value>, rules: map<string, Range>,
                         overrides: map<string, Value>, log: seq<Change>, full: seq<Change>, touched: set<string>)

  ghost predicate Coherent(s: State) {
    && IsSuffix(s.log, s.full)
    && Explains(s.full, s.defaults, s.overrides)
    && Bounded(s.log, s.overrides, s.touched)
    && AllAccepted(s.parsers, s.defaults, s.rules, s.overrides)
  }

  /** An accepted value is stored and logged, and the log cut to its limit. */
  ghost function Registered(s: State, key: string, value: Value, source: string): State {
    var change := Change(key, Effective(s.defaults, s.overrides, key), value, source);
    s.(overrides := s.overrides[key := value], log := Trim(s.log + [change]), full := s.full + [change],
       touched := s.touched + {key})
  }

  lemma SetStaysCoherent(s: State, key: string, value: Value, source: string)
    requires Coherent(s)
    requires Validate(s.parsers, Default(s.defaults, key), RuleOf(s.rules, key), value) == Accepted
    ensures Coherent(Registered(s, key, value, source))
  {
    var change := Change(key, Effective(s.defaults, s.overrides, key), value, source);
    SetIsExplained(s.full, s.defaults, s.overrides, key, value, source);
    AppendKeepsSuffix(s.log, s.full, change);
    TrimIsShort(s.log + [change]);
    SetStaysBounded(Trim(s.log + [change]), s.overrides, s.touched, key, value);
    SetStaysAccepted(s.parsers, s.defaults, s.rules, s.overrides, key, value);
  }

  class Registry {
    const defaults: map<string, Value>
    const rules: map<string, Range>
    const parsers: Parsers

    var overrides: map<string, Value>
    var changeLog: seq<Change>

    /** Every change ever made, and every key ever overridden. */
    ghost var full: seq<Change>
    ghost var touched: set<string>

    ghost predicate Valid()
      reads this
    {
      Coherent(Abstract())
    }

    ghost function Abstract(): State
      reads this
    {
      State(parsers, defaults, rules, overrides, changeLog, full, touched)
    }

    constructor (defaults: map<string, Value>, rules: map<string, Range>, parsers: Parsers)
      ensures Valid() && overrides == map[] && changeLog == [] && full == [] && touched == {}
      ensures this.defaults == defaults && this.rules == rules && this.parsers == parsers
    {
      this.defaults, this.rules, this.parsers := defaults, rules, parsers;
      overrides, changeLog := map[], [];
      full, touched := [], {};
    }

    /**
     * Without an environment variable a configured key answers with what its whole change history leads to, which is the
     * new value of its latest entry in the retained log if it has one. A key that is neither overridden nor has a default
     * answers with the caller's fallback, and its history ends where it began.
     */
    method Get(key: string, environment: Option<Value>, fallback: Value) returns (value: Value)
      requires Valid()
      ensures environment.Some? ==> value == environment.value
      ensures environment.None? && (key in overrides || key in defaults) ==>
        && value == Effective(defaults, overrides, key)
        && value == Replay(full, key, Default(defaults, key))
        && forall i :: 0 <= i < |changeLog| && IsLatest(changeLog, key, i) ==> value == changeLog[i].after
      ensures environment.None? && key !in overrides && key !in defaults ==>
        value == fallback && Replay(full, key, Null) == Null
      ensures environment.None? && key in overrides && key in rules && Numeric(Default(defaults, key)) ==>
        && Validate(parsers, Default(defaults, key), Some(rules[key]), value) == Accepted
        && (StoredAsChecked(parsers, Default(defaults, key), value) <==> HasTypeOf(Default(defaults, key), value))
    {
      ReplayFollowsChain(full, key, Default(defaults, key), Effective(defaults, overrides, key));
      RetainedLogRewinds(key);
      forall i | 0 <= i < |changeLog| && IsLatest(changeLog, key, i)
        ensures changeLog[i].after == Effective(defaults, overrides, key)
      {
        var forgotten := full[..|full| - |changeLog|];
        NeighboursLink(changeLog, key, Replay(forgotten, key, Default(defaults, key)), Effective(defaults, overrides, key),
                       i, |changeLog|);
      }
      if environment.Some? {
        return environment.value;
      }
      if key in overrides {
        if key in rules && Numeric(Default(defaults, key)) {
          StoredAsCheckedIff(parsers, Default(defaults, key), rules[key], overrides[key]);
        }
        return overrides[key];
      }
      if key in defaults {
        return defaults[key];
      }
      return fallback;
    }

    method GetAll() returns (merged: map<string, Value>)
      ensures merged.Keys == defaults.Keys + overrides.Keys
      ensures forall key :: key in merged ==> merged[key] == Effective(defaults, overrides, key)
    {
      merged := defaults + overrides;
    }

    /** A rejected value changes nothing; an accepted one is stored unconverted, logged, and the log cut to 100 entries. */
    method Set(key: string, value: Value, source: string) returns (verdict: Verdict)
      requires Valid()
      modifies this
      ensures Valid()
      ensures verdict == Validate(parsers, Default(defaults, key), RuleOf(rules, key), value)
      ensures verdict != Accepted ==>
        overrides == old(overrides) && changeLog == old(changeLog) && full == old(full) && touched == old(touched)
      ensures verdict == Accepted ==>
        var change := Change(key, Effective(defaults, old(overrides), key), value, source);
        && overrides == old(overrides)[key := value]
        && full == old(full) + [change] && touched == old(touched) + {key}
        && changeLog == Trim(old(changeLog) + [change])
      ensures verdict == Accepted ==>
        var longer := old(changeLog) + [Change(key, Effective(defaults, old(overrides), key), value, source)];
        changeLog == if |longer| <= 100 then longer else longer[|longer| - 100..]
      ensures verdict == Accepted && key in rules && Numeric(Default(defaults, key)) ==>
        (StoredAsChecked(parsers, Default(defaults, key), overrides[key]) <==> HasTypeOf(Default(defaults, key), value))
    {
      verdict := Validate(parsers, Default(defaults, key), RuleOf(rules, key), value);
      if verdict == Accepted {
        if key in rules && Numeric(Default(defaults, key)) {
          StoredAsCheckedIff(parsers, Default(defaults, key), rules[key], value);
        }
        Override(key, value, source);
      }
    }

    /** Store and log an accepted value. */
    method Override(key: string, value: Value, source: string)
      requires Valid() && Validate(parsers, Default(defaults, key), RuleOf(rules, key), value) == Accepted
      modifies this
      ensures Valid()
      ensures var change := Change(key, Effective(defaults, old(overrides), key), value, source);
        && overrides == old(overrides)[key := value] && changeLog == Trim(old(changeLog) + [change])
        && full == old(full) + [change] && touched == old(touched) + {key}
    {
      var oldValue := Effective(defaults, overrides, key);
      var change := Change(key, oldValue, value, source);
      SetStaysCoherent(Abstract(), key, value, source);
      ghost var next := Registered(Abstract(), key, value, source);
      Append(change);
      overrides := overrides[key := value];
      full, touched := full + [change], touched + {key};
      assert Abstract() == next;
    }

    /** The log keeps its newest entries. */
    method Append(change: Change)
      modifies this`changeLog
      ensures changeLog == Trim(old(changeLog) + [change])
    {
      changeLog := changeLog + [change];
      if |changeLog| > LOG_LIMIT {
        changeLog := changeLog[|changeLog| - LOG_LIMIT..];
      }
    }

    /** Only an overridden key is reset; the log grows without being cut. */
    method ResetKey(key: string)
      requires Valid()
      modifies this
      ensures Valid() && touched == old(touched)
      ensures |changeLog| <= LOG_LIMIT + |touched|
      ensures key !in old(overrides) ==> overrides == old(overrides) && changeLog == old(changeLog) && full == old(full)
      ensures key in old(overrides) ==>
        var change := Change(key, old(overrides)[key], Default(defaults, key), "reset");
        overrides == old(overrides) - {key} && changeLog == old(changeLog) + [change] && full == old(full) + [change]
    {
      if key in overrides {
        var change := Change(key, overrides[key], Default(defaults, key), "reset");
        ResetIsExplained(full, defaults, overrides, key, "reset");
        AppendKeepsSuffix(changeLog, full, change);
        ResetStaysBounded(changeLog, overrides, touched, key, change);
        overrides := overrides - {key};
        changeLog := changeLog + [change];
        full := full + [change];
      }
    }

    /**
     * The retained entries of every key chain up to its effective value, and undoing them yields the value the key had
     * before the oldest retained entry, through truncations and resets.
     */
    lemma RetainedLogRewinds(key: string)
      requires Valid()
      ensures var forgotten := full[..|full| - |changeLog|];
        var start := Replay(forgotten, key, Default(defaults, key));
        && Chains(changeLog, key, start, Effective(defaults, overrides, key))
        && Undo(changeLog, key, Effective(defaults, overrides, key)) == start
    {
      RetainedPartRewinds(full, |full| - |changeLog|, key, Default(defaults, key), Effective(defaults, overrides, key));
    }
  }
}
