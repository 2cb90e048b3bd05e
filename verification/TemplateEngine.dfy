/** Prompt templates: {{name}} placeholders, their extraction, and rendering by repeated replacement. */
module TemplateEngine {
  import opened Text
  import opened Wrappers

  datatype VarDef = VarDef(name: string, required: bool, default: Option<string>)

  /** Rendering arguments; an explicit None shadows a variable's default. */
  type Args = map<string, Option<string>>

  function Pattern(inner: string): string {
    "{{" + inner + "}}"
  }

  /** str.replace: leftmost, non-overlapping occurrences. */
  function ReplaceAll(s: string, pattern: string, sub: string): string
    requires pattern != ""
    decreases |s|
  {
    if s == "" then ""
    else if pattern <= s then sub + ReplaceAll(s[|pattern|..], pattern, sub)
    else [s[0]] + ReplaceAll(s[1..], pattern, sub)
  }

  function ValueOf(def: VarDef, args: Args): Option<string> {
    if def.name in args then args[def.name] else def.default
  }

  /** One replacement pass per definition, in order; a required variable without a value stops the rendering. */
  function RenderFrom(text: string, defs: seq<VarDef>, args: Args): Result<string, string>
    decreases |defs|
  {
    if defs == [] then Success(text)
    else
      var value := ValueOf(defs[0], args);
      if value.None? && defs[0].required then Failure(defs[0].name)
      else if value.None? then RenderFrom(text, defs[1..], args)
      else RenderFrom(ReplaceAll(text, Pattern(defs[0].name), value.value), defs[1..], args)
  }

  function FirstMissing(defs: seq<VarDef>, args: Args): Option<string> {
    if defs == [] then None
    else if defs[0].required && ValueOf(defs[0], args) == None then Some(defs[0].name)
    else FirstMissing(defs[1..], args)
  }

  /** On any text, rendering fails exactly when a required variable has no value, and names the first such variable. */
  lemma {:induction false} RenderFailsIffMissing(text: string, defs: seq<VarDef>, args: Args)
    ensures RenderFrom(text, defs, args).Failure? <==> FirstMissing(defs, args).Some?
    ensures RenderFrom(text, defs, args).Failure? ==> Some(RenderFrom(text, defs, args).error) == FirstMissing(defs, args)
    decreases |defs|
  {
    if defs != [] {
      var value := ValueOf(defs[0], args);
      var next := if value.Some? then ReplaceAll(text, Pattern(defs[0].name), value.value) else text;
      RenderFailsIffMissing(next, defs[1..], args);
    }
  }

  // ---- The call ----

  /** A missing required variable, or a keyword argument that collides with the receiver of render. */
  datatype RenderError = MissingVariable(name: string) | DuplicateSelf

  const SELF := "self"

  /** render(**args): binding the arguments fails when one of them is named like the receiver. */
  function CallRender(content: string, defs: seq<VarDef>, args: Args): Result<string, RenderError> {
    if SELF in args then Failure(DuplicateSelf)
    else match RenderFrom(content, defs, args)
      case Success(text) => Success(text)
      case Failure(name) => Failure(MissingVariable(name))
  }

  method Render(content: string, defs: seq<VarDef>, args: Args) returns (r: Result<string, RenderError>)
    ensures r == CallRender(content, defs, args)
  {
    if SELF in args {
      return Failure(DuplicateSelf);
    }
    var rendered := content;
    for i := 0 to |defs|
      invariant RenderFrom(content, defs, args) == RenderFrom(rendered, defs[i..], args)
    {
      var def := defs[i];
      var value := def.default;
      if def.name in args {
        value := args[def.name];
      }
      if value.None? && def.required {
        return Failure(MissingVariable(def.name));
      }
      if value.Some? {
        rendered := ReplaceAll(rendered, Pattern(def.name), value.value);
      }
    }
    return Success(rendered);
  }

  lemma {:induction false} MissingIsARequiredDef(defs: seq<VarDef>, args: Args)
    ensures FirstMissing(defs, args).Some? <==> exists d :: d in defs && d.required && ValueOf(d, args) == None
  {
    if defs != [] {
      MissingIsARequiredDef(defs[1..], args);
      assert forall d :: d in defs <==> d == defs[0] || d in defs[1..];
    }
  }

  /** On any text, a call fails exactly when an argument is named self or a required variable has no value. */
  lemma CallFailsIff(content: string, defs: seq<VarDef>, args: Args)
    ensures CallRender(content, defs, args).Failure?
       <==> SELF in args || exists d :: d in defs && d.required && ValueOf(d, args) == None
  {
    RenderFailsIffMissing(content, defs, args);
    MissingIsARequiredDef(defs, args);
  }

  /** A required variable named self without a default can never be given: no arguments render the template. */
  lemma RequiredSelfIsUnrenderable(content: string, defs: seq<VarDef>, args: Args)
    requires VarDef(SELF, true, None) in defs
    ensures CallRender(content, defs, args).Failure?
  {
    CallFailsIff(content, defs, args);
    assert SELF !in args ==> ValueOf(VarDef(SELF, true, None), args) == None;
  }

  lemma {:induction false} RenderIgnoresShadowedDefaults(text: string, defs: seq<VarDef>, other: seq<VarDef>, args: Args)
    requires |defs| == |other|
    requires forall i :: 0 <= i < |defs| ==>
      && defs[i].name == other[i].name && defs[i].required == other[i].required
      && (defs[i].name !in args ==> defs[i].default == other[i].default)
    ensures RenderFrom(text, defs, args) == RenderFrom(text, other, args)
    decreases |defs|
  {
    if defs != [] {
      var value := ValueOf(defs[0], args);
      assert value == ValueOf(other[0], args);
      RenderIgnoresShadowedDefaults(if value.Some? then ReplaceAll(text, Pattern(defs[0].name), value.value) else text,
                                    defs[1..], other[1..], args);
    }
  }

  /** A supplied argument wins over the default: on any text, defaults of supplied names make no difference. */
  lemma SuppliedArgumentsWin(content: string, defs: seq<VarDef>, other: seq<VarDef>, args: Args)
    requires |defs| == |other|
    requires forall i :: 0 <= i < |defs| ==>
      && defs[i].name == other[i].name && defs[i].required == other[i].required
      && (defs[i].name !in args ==> defs[i].default == other[i].default)
    ensures CallRender(content, defs, args) == CallRender(content, other, args)
  {
    RenderIgnoresShadowedDefaults(content, defs, other, args);
  }

  /** Rendering with a list of definitions is rendering with its first part and then with the rest. */
  lemma {:induction false} RenderComposes(text: string, first: seq<VarDef>, rest: seq<VarDef>, args: Args)
    ensures RenderFrom(text, first + rest, args)
         == match RenderFrom(text, first, args)
            case Success(rendered) => RenderFrom(rendered, rest, args)
            case Failure(name) => Failure(name)
    decreases |first|
  {
    if first == [] {
      assert first + rest == rest;
    } else {
      var value := ValueOf(first[0], args);
      assert (first + rest)[1..] == first[1..] + rest;
      RenderComposes(if value.Some? then ReplaceAll(text, Pattern(first[0].name), value.value) else text,
                     first[1..], rest, args);
    }
  }

  // ---- Template structure ----

  /** A template is literal text interleaved with {{inner}} slots. */
  datatype Token = Lit(text: string) | Slot(inner: string)

  function Show(t: Token): string {
    match t
    case Lit(text) => text
    case Slot(inner) => Pattern(inner)
  }

  function Flatten(ts: seq<Token>): string {
    if ts == [] then "" else Show(ts[0]) + Flatten(ts[1..])
  }

  /** Every opening brace is followed, inside the text itself, by something else: no "{{" can start here. */
  predicate Safe(text: string) {
    forall i :: 0 <= i < |text| && text[i] == '{' ==> i + 1 < |text| && text[i + 1] != '{'
  }

  predicate BraceFree(s: string) {
    forall i :: 0 <= i < |s| ==> s[i] != '{' && s[i] != '}'
  }

  predicate SafeToken(t: Token) {
    match t
    case Lit(text) => Safe(text)
    case Slot(inner) => BraceFree(inner)
  }

  predicate WellFormed(ts: seq<Token>) {
    forall i :: 0 <= i < |ts| ==> SafeToken(ts[i])
  }

  // ---- Sequential replacement is one simultaneous substitution ----

  /** The value a name is bound to: that of the first definition of the name that has one. */
  function Binding(defs: seq<VarDef>, args: Args, name: string): (b: Option<string>)
    ensures b.Some? ==> exists i :: 0 <= i < |defs| && defs[i].name == name && ValueOf(defs[i], args) == b
                                 && forall j :: 0 <= j < i && defs[j].name == name ==> ValueOf(defs[j], args) == None
    ensures b.None? ==> forall i :: 0 <= i < |defs| && defs[i].name == name ==> ValueOf(defs[i], args) == None
  {
    if defs == [] then None
    else if defs[0].name == name && ValueOf(defs[0], args).Some? then ValueOf(defs[0], args)
    else
      var rest := Binding(defs[1..], args, name);
      assert rest.Some? ==> exists i :: 0 <= i < |defs[1..]| && defs[1..][i].name == name
                              && ValueOf(defs[1..][i], args) == rest
                              && forall j :: 0 <= j < i && defs[1..][j].name == name ==> ValueOf(defs[1..][j], args) == None;
      assert forall i :: 0 < i < |defs| ==> defs[i] == defs[1..][i - 1];
      rest
  }

  /** Every slot replaced by the value of its name, all at once; unbound slots stay as they are. */
  function Substitute(ts: seq<Token>, defs: seq<VarDef>, args: Args): string {
    if ts == [] then ""
    else
      var head := match ts[0]
        case Lit(text) => text
        case Slot(inner) => var b := Binding(defs, args, inner); if b.Some? then b.value else Pattern(inner);
      head + Substitute(ts[1..], defs, args)
  }

  /** The specification of rendering: the first missing required variable, or the text with all values in place. */
  function Simultaneous(ts: seq<Token>, defs: seq<VarDef>, args: Args): Result<string, string> {
    match FirstMissing(defs, args)
    case Some(name) => Failure(name)
    case None => Success(Substitute(ts, defs, args))
  }

  function Fill(ts: seq<Token>, name: string, value: string): (r: seq<Token>)
    ensures |r| == |ts|
    ensures forall i :: 0 <= i < |ts| ==> r[i] == if ts[i] == Slot(name) then Lit(value) else ts[i]
  {
    if ts == [] then [] else [if ts[0] == Slot(name) then Lit(value) else ts[0]] + Fill(ts[1..], name, value)
  }

  predicate Contains(s: string, pattern: string) {
    exists i :: 0 <= i <= |s| && pattern <= s[i..]
  }

  lemma ContainsHere(s: string, pattern: string)
    requires pattern != ""
    ensures Contains(s, pattern) <==> s != "" && (pattern <= s || Contains(s[1..], pattern))
  {
    if i :| 0 < i <= |s| && pattern <= s[i..] {
      assert s[1..][i - 1..] == s[i..];
    }
    if s != "" {
      if i :| 0 <= i <= |s[1..]| && pattern <= s[1..][i..] {
        assert s[1..][i..] == s[i + 1..];
      }
    }
    assert s[0..] == s;
  }

  /** Replacing by something longer never shortens a text, by something shorter never lengthens it. */
  lemma {:induction false} ReplaceMovesLength(s: string, pattern: string, sub: string)
    requires pattern != ""
    ensures |sub| >= |pattern| ==> |ReplaceAll(s, pattern, sub)| >= |s|
    ensures |sub| <= |pattern| ==> |ReplaceAll(s, pattern, sub)| <= |s|
    decreases |s|
  {
    if s != "" {
      ReplaceMovesLength(if pattern <= s then s[|pattern|..] else s[1..], pattern, sub);
    }
  }

  /** A replacement changes a text exactly when the pattern occurs in it and is not replaced by itself. */
  lemma {:induction false} ReplaceChangesIff(s: string, pattern: string, sub: string)
    requires pattern != ""
    ensures ReplaceAll(s, pattern, sub) != s <==> Contains(s, pattern) && sub != pattern
    decreases |s|
  {
    ContainsHere(s, pattern);
    if s != "" && pattern <= s {
      var rest := s[|pattern|..];
      assert s == pattern + rest;
      ReplaceChangesIff(rest, pattern, sub);
      ReplaceMovesLength(rest, pattern, sub);
      if |sub| == |pattern| {
        assert (sub + ReplaceAll(rest, pattern, sub))[..|pattern|] == sub && s[..|pattern|] == pattern;
      }
    } else if s != "" {
      ReplaceChangesIff(s[1..], pattern, sub);
      assert s == [s[0]] + s[1..];
    }
  }

  /** The pattern occurs in the text, or a beginning of it ends the text, so that what follows may complete it. */
  predicate CanStart(text: string, pattern: string) {
    exists i :: 0 <= i < |text| && (pattern <= text[i..] || text[i..] < pattern)
  }

  lemma CanStartBehind(text: string, pattern: string)
    requires text != "" && !CanStart(text, pattern)
    ensures !CanStart(text[1..], pattern) && !(pattern <= text) && !(text < pattern)
  {
    assert text[0..] == text;
    forall i | 0 <= i < |text[1..]| ensures !(pattern <= text[1..][i..]) && !(text[1..][i..] < pattern) {
      assert text[1..][i..] == text[i + 1..];
    }
  }

  lemma SafeStartsNothing(text: string, name: string)
    requires Safe(text)
    ensures !CanStart(text, Pattern(name))
  {
    var p := Pattern(name);
    assert p[0] == '{' && p[1] == '{';
    forall i | 0 <= i < |text| ensures !(p <= text[i..]) && !(text[i..] < p) {
      assert text[i..][0] == text[i];
    }
  }

  /** The leftmost occurrence is replaced and the search goes on behind it, not in what was put in. */
  lemma {:induction false} ReplaceLeftmost(before: string, pattern: string, rest: string, sub: string)
    requires pattern != ""
    requires forall k :: 0 <= k < |before| ==> !(pattern <= (before + pattern + rest)[k..])
    ensures ReplaceAll(before + pattern + rest, pattern, sub) == before + sub + ReplaceAll(rest, pattern, sub)
    decreases |before|
  {
    var s := before + pattern + rest;
    if before == "" {
      assert s == pattern + rest && s[|pattern|..] == rest;
    } else {
      assert s[0..] == s && s[1..] == before[1..] + pattern + rest;
      forall k | 0 <= k < |before[1..]| ensures !(pattern <= s[1..][k..]) {
        assert s[1..][k..] == s[k + 1..];
      }
      ReplaceLeftmost(before[1..], pattern, rest, sub);
      assert [before[0]] + before[1..] == before;
    }
  }

  lemma PrefixMeetsText(pattern: string, text: string, rest: string)
    ensures pattern <= text + rest ==> pattern <= text || text < pattern
  {
    var s := text + rest;
    if pattern <= s {
      assert forall i :: 0 <= i < |pattern| ==> pattern[i] == s[i];
    }
  }

  lemma {:induction false} ReplaceSkips(text: string, rest: string, pattern: string, sub: string)
    requires pattern != "" && !CanStart(text, pattern)
    ensures ReplaceAll(text + rest, pattern, sub) == text + ReplaceAll(rest, pattern, sub)
  {
    var s := text + rest;
    if text == "" {
      assert s == rest;
    } else {
      CanStartBehind(text, pattern);
      PrefixMeetsText(pattern, text, rest);
      assert s[1..] == text[1..] + rest;
      ReplaceSkips(text[1..], rest, pattern, sub);
      assert [text[0]] + text[1..] == text;
    }
  }

  lemma ReplaceSkipsSafe(text: string, rest: string, name: string, sub: string)
    requires Safe(text)
    ensures ReplaceAll(text + rest, Pattern(name), sub) == text + ReplaceAll(rest, Pattern(name), sub)
  {
    SafeStartsNothing(text, name);
    ReplaceSkips(text, rest, Pattern(name), sub);
  }

  lemma PatternMatchesOnlyItself(name: string, inner: string, rest: string)
    requires BraceFree(name) && BraceFree(inner)
    ensures Pattern(name) <= Pattern(inner) + rest <==> name == inner
  {
    var p, s := Pattern(name), Pattern(inner) + rest;
    if p <= s {
      assert forall i :: 0 <= i < |p| ==> p[i] == s[i];
      assert forall i :: 0 <= i < |name| ==> p[i + 2] == name[i];
      assert forall i :: 0 <= i < |inner| ==> s[i + 2] == inner[i];
      assert p[|name| + 2] == '}' && s[|inner| + 2] == '}';
      assert |name| == |inner|;
    }
  }

  /** The text of a slot behind its first brace starts no placeholder. */
  lemma SlotTailIsSafe(inner: string)
    requires BraceFree(inner)
    ensures Safe("{" + inner + "}}")
    ensures Pattern(inner) == "{" + ("{" + inner + "}}")
  {
  }

  lemma ReplaceAtSlot(inner: string, rest: string, name: string, value: string)
    requires BraceFree(name) && BraceFree(inner)
    ensures ReplaceAll(Pattern(inner) + rest, Pattern(name), value)
         == (if inner == name then value else Pattern(inner)) + ReplaceAll(rest, Pattern(name), value)
  {
    PatternMatchesOnlyItself(name, inner, rest);
    var s := Pattern(inner) + rest;
    if inner == name {
      assert s[|Pattern(name)|..] == rest;
    } else {
      SlotTailIsSafe(inner);
      assert s[1..] == "{" + inner + "}}" + rest;
      ReplaceSkipsSafe("{" + inner + "}}", rest, name, value);
    }
  }

  /** No literal part can start the placeholder of the name, and slot texts hold no braces. */
  ghost predicate Clear(ts: seq<Token>, name: string) {
    forall i :: 0 <= i < |ts| ==>
      if ts[i].Lit? then !CanStart(ts[i].text, Pattern(name)) else BraceFree(ts[i].inner)
  }

  lemma {:induction false} ReplaceFillsSlots(ts: seq<Token>, name: string, value: string)
    requires Clear(ts, name) && BraceFree(name)
    ensures ReplaceAll(Flatten(ts), Pattern(name), value) == Flatten(Fill(ts, name, value))
  {
    if ts != [] {
      var rest := Flatten(ts[1..]);
      ReplaceFillsSlots(ts[1..], name, value);
      match ts[0] {
        case Lit(text) =>
          ReplaceSkips(text, rest, Pattern(name), value);
        case Slot(inner) =>
          ReplaceAtSlot(inner, rest, name, value);
      }
    }
  }

  lemma WellFormedIsClear(ts: seq<Token>, name: string)
    requires WellFormed(ts)
    ensures Clear(ts, name)
  {
    forall i | 0 <= i < |ts| ensures if ts[i].Lit? then !CanStart(ts[i].text, Pattern(name)) else BraceFree(ts[i].inner) {
      assert SafeToken(ts[i]);
      if ts[i].Lit? {
        SafeStartsNothing(ts[i].text, name);
      }
    }
  }

  /**
   * One definition: a supplied value fills the slots of its name, else the default does. With neither, or with an argument
   * that is explicitly None, a required variable is an error and an optional one leaves the template as it is.
   */
  lemma OneVariableRenders(ts: seq<Token>, def: VarDef, args: Args)
    requires WellFormed(ts) && BraceFree(def.name) && SELF !in args
    ensures var n, r := def.name, CallRender(Flatten(ts), [def], args);
      && (n in args && args[n].Some? ==> r == Success(Flatten(Fill(ts, n, args[n].value))))
      && (n !in args && def.default.Some? ==> r == Success(Flatten(Fill(ts, n, def.default.value))))
      && ((n in args && args[n] == None) || (n !in args && def.default == None) ==>
            r == if def.required then Failure(MissingVariable(n)) else Success(Flatten(ts)))
  {
    var text, value := Flatten(ts), ValueOf(def, args);
    if value.Some? {
      WellFormedIsClear(ts, def.name);
      ReplaceFillsSlots(ts, def.name, value.value);
      text := ReplaceAll(text, Pattern(def.name), value.value);
    }
    assert RenderFrom(text, [def][1..], args) == Success(text);
  }

  lemma {:induction false} SubstituteAfterFill(ts: seq<Token>, defs: seq<VarDef>, args: Args)
    requires defs != [] && ValueOf(defs[0], args).Some?
    ensures Substitute(Fill(ts, defs[0].name, ValueOf(defs[0], args).value), defs[1..], args) == Substitute(ts, defs, args)
  {
    if ts != [] {
      SubstituteAfterFill(ts[1..], defs, args);
    }
  }

  lemma {:induction false} SubstituteSkips(ts: seq<Token>, defs: seq<VarDef>, args: Args)
    requires defs == [] || ValueOf(defs[0], args) == None
    ensures defs == [] ==> Substitute(ts, defs, args) == Flatten(ts)
    ensures defs != [] ==> Substitute(ts, defs, args) == Substitute(ts, defs[1..], args)
  {
    if ts != [] {
      SubstituteSkips(ts[1..], defs, args);
    }
  }

  /** A value already rendered for one definition is left alone by the replacement made for another. */
  predicate HarmlessTo(a: VarDef, b: VarDef, args: Args) {
    ValueOf(a, args).Some? && ValueOf(b, args).Some? ==>
      ValueOf(b, args).value == Pattern(b.name) || !CanStart(ValueOf(a, args).value, Pattern(b.name))
  }

  /** Every value is left alone by the definitions behind its own. */
  ghost predicate Forward(defs: seq<VarDef>, args: Args) {
    && (forall i :: 0 <= i < |defs| ==> BraceFree(defs[i].name))
    && (forall i, j :: 0 <= i < j < |defs| ==> HarmlessTo(defs[i], defs[j], args))
  }

  ghost predicate ClearOf(ts: seq<Token>, defs: seq<VarDef>, args: Args) {
    forall j :: 0 <= j < |defs| && ValueOf(defs[j], args).Some? && ValueOf(defs[j], args).value != Pattern(defs[j].name) ==>
      Clear(ts, defs[j].name)
  }

  /** A definition whose value is its own placeholder could as well be missing. */
  lemma {:induction false} SubstituteKeepsOwn(ts: seq<Token>, defs: seq<VarDef>, args: Args)
    requires defs != [] && ValueOf(defs[0], args) == Some(Pattern(defs[0].name)) && Forward(defs, args)
    ensures Substitute(ts, defs, args) == Substitute(ts, defs[1..], args)
  {
    if ts != [] {
      SubstituteKeepsOwn(ts[1..], defs, args);
      if ts[0] == Slot(defs[0].name) && Binding(defs[1..], args, defs[0].name).Some? {
        var b := Binding(defs[1..], args, defs[0].name);
        var i :| 0 <= i < |defs[1..]| && defs[1..][i].name == defs[0].name && ValueOf(defs[1..][i], args) == b;
        assert HarmlessTo(defs[0], defs[i + 1], args);
        assert Pattern(defs[0].name) <= Pattern(defs[0].name)[0..];
      }
    }
  }

  lemma FillStaysClear(ts: seq<Token>, defs: seq<VarDef>, args: Args)
    requires defs != [] && ValueOf(defs[0], args).Some? && Forward(defs, args) && ClearOf(ts, defs, args)
    ensures ClearOf(Fill(ts, defs[0].name, ValueOf(defs[0], args).value), defs[1..], args)
  {
    var rest := defs[1..];
    forall j | 0 <= j < |rest| && ValueOf(rest[j], args).Some? && ValueOf(rest[j], args).value != Pattern(rest[j].name)
      ensures Clear(Fill(ts, defs[0].name, ValueOf(defs[0], args).value), rest[j].name)
    {
      assert rest[j] == defs[j + 1] && Clear(ts, defs[j + 1].name);
      assert HarmlessTo(defs[0], defs[j + 1], args);
    }
  }

  lemma {:induction false} SequentialOnClear(ts: seq<Token>, defs: seq<VarDef>, args: Args)
    requires Forward(defs, args) && ClearOf(ts, defs, args)
    ensures RenderFrom(Flatten(ts), defs, args) == Simultaneous(ts, defs, args)
    decreases |defs|
  {
    if defs == [] || ValueOf(defs[0], args) == None {
      SubstituteSkips(ts, defs, args);
      if defs != [] {
        SequentialOnClear(ts, defs[1..], args);
      }
    } else {
      var name, value := defs[0].name, ValueOf(defs[0], args).value;
      if value == Pattern(name) {
        ReplaceChangesIff(Flatten(ts), Pattern(name), value);
        SequentialOnClear(ts, defs[1..], args);
        SubstituteKeepsOwn(ts, defs, args);
      } else {
        assert Clear(ts, name);
        ReplaceFillsSlots(ts, name, value);
        FillStaysClear(ts, defs, args);
        SequentialOnClear(Fill(ts, name, value), defs[1..], args);
        SubstituteAfterFill(ts, defs, args);
      }
    }
  }

  /** The variable-by-variable replacement loop equals one simultaneous substitution, errors included. */
  lemma SequentialIsSimultaneous(ts: seq<Token>, defs: seq<VarDef>, args: Args)
    requires WellFormed(ts) && Forward(defs, args)
    ensures RenderFrom(Flatten(ts), defs, args) == Simultaneous(ts, defs, args)
  {
    forall j | 0 <= j < |defs| ensures Clear(ts, defs[j].name) {
      WellFormedIsClear(ts, defs[j].name);
    }
    SequentialOnClear(ts, defs, args);
  }

  ghost predicate DistinctNames(defs: seq<VarDef>) {
    forall i, j :: 0 <= i < j < |defs| ==> defs[i].name != defs[j].name
  }

  lemma BindingIgnoresOrder(defs: seq<VarDef>, other: seq<VarDef>, args: Args, name: string)
    requires DistinctNames(defs) && DistinctNames(other)
    requires forall d :: d in defs <==> d in other
    ensures Binding(defs, args, name) == Binding(other, args, name)
  {
    var b, c := Binding(defs, args, name), Binding(other, args, name);
    if b.Some? {
      var i :| 0 <= i < |defs| && defs[i].name == name && ValueOf(defs[i], args) == b;
      assert defs[i] in other;
    }
    if c.Some? {
      var k :| 0 <= k < |other| && other[k].name == name && ValueOf(other[k], args) == c;
      assert other[k] in defs;
    }
  }

  lemma {:induction false} SubstituteIgnoresOrder(ts: seq<Token>, defs: seq<VarDef>, other: seq<VarDef>, args: Args)
    requires DistinctNames(defs) && DistinctNames(other)
    requires forall d :: d in defs <==> d in other
    ensures Substitute(ts, defs, args) == Substitute(ts, other, args)
  {
    if ts != [] {
      if ts[0].Slot? {
        BindingIgnoresOrder(defs, other, args, ts[0].inner);
      }
      SubstituteIgnoresOrder(ts[1..], defs, other, args);
    }
  }

  /** Brace-free names, and every value is left alone by every other definition. */
  ghost predicate Harmless(defs: seq<VarDef>, args: Args) {
    && (forall i :: 0 <= i < |defs| ==> BraceFree(defs[i].name))
    && (forall i, j :: 0 <= i < |defs| && 0 <= j < |defs| && i != j ==> HarmlessTo(defs[i], defs[j], args))
  }

  /** Another selection of the definitions, in any order. */
  ghost predicate ChosenFrom(chosen: seq<VarDef>, defs: seq<VarDef>) {
    DistinctNames(chosen) && forall d :: d in chosen ==> d in defs
  }

  ghost predicate SameDefs(defs: seq<VarDef>, other: seq<VarDef>) {
    forall d :: d in defs <==> d in other
  }

  /** Both orders fail, or both give the same text. */
  ghost predicate Agree(text: string, defs: seq<VarDef>, other: seq<VarDef>, args: Args) {
    var r, r' := RenderFrom(text, defs, args), RenderFrom(text, other, args);
    r == r' || (r.Failure? && r'.Failure?)
  }

  lemma SimultaneousIgnoresOrder(ts: seq<Token>, defs: seq<VarDef>, other: seq<VarDef>, args: Args)
    requires DistinctNames(defs) && DistinctNames(other) && SameDefs(defs, other)
    ensures var r, r' := Simultaneous(ts, defs, args), Simultaneous(ts, other, args);
      r == r' || (r.Failure? && r'.Failure?)
  {
    SubstituteIgnoresOrder(ts, defs, other, args);
    MissingIsARequiredDef(defs, args);
    MissingIsARequiredDef(other, args);
  }

  lemma ChosenIsForward(chosen: seq<VarDef>, defs: seq<VarDef>, args: Args)
    requires Harmless(defs, args) && ChosenFrom(chosen, defs)
    ensures Forward(chosen, args)
  {
    forall i, j | 0 <= i < j < |chosen| ensures HarmlessTo(chosen[i], chosen[j], args) {
      assert chosen[i] in defs && chosen[j] in defs;
      var k :| 0 <= k < |defs| && defs[k] == chosen[i];
      var m :| 0 <= m < |defs| && defs[m] == chosen[j];
    }
    forall i | 0 <= i < |chosen| ensures BraceFree(chosen[i].name) {
      assert chosen[i] in defs;
    }
  }

  /** Among harmless definitions the order of any selection does not matter. */
  lemma DeclarationOrderIsIrrelevant(ts: seq<Token>, defs: seq<VarDef>, chosen: seq<VarDef>, other: seq<VarDef>, args: Args)
    requires WellFormed(ts) && Harmless(defs, args)
    requires ChosenFrom(chosen, defs) && ChosenFrom(other, defs) && SameDefs(chosen, other)
    ensures Agree(Flatten(ts), chosen, other, args)
  {
    ChosenIsForward(chosen, defs, args);
    ChosenIsForward(other, defs, args);
    SequentialIsSimultaneous(ts, chosen, args);
    SequentialIsSimultaneous(ts, other, args);
    SimultaneousIgnoresOrder(ts, chosen, other, args);
  }

  lemma OneSlotReplaced(inner: string, before: string, behind: string, name: string, value: string)
    requires BraceFree(inner) && BraceFree(name) && Safe(before) && Safe(behind)
    ensures ReplaceAll(before + (Pattern(inner) + behind), Pattern(name), value)
         == before + ((if inner == name then value else Pattern(inner)) + behind)
  {
    ReplaceSkipsSafe(before, Pattern(inner) + behind, name, value);
    ReplaceAtSlot(inner, behind, name, value);
    ReplaceSkipsSafe(behind, "", name, value);
    assert behind + "" == behind;
  }

  /**
   * On one placeholder between safe texts the two orders disagree exactly when the placeholder of the other name occurs
   * in what follows from the substituted value on, and is not replaced by itself.
   */
  lemma OrderMattersIff(a: VarDef, b: VarDef, va: string, vb: string, args: Args, before: string, behind: string)
    requires a.name != b.name && BraceFree(a.name) && BraceFree(b.name) && Safe(before) && Safe(behind)
    requires ValueOf(a, args) == Some(va) && ValueOf(b, args) == Some(vb)
    ensures var text := before + (Pattern(a.name) + behind);
      RenderFrom(text, [a, b], args) != RenderFrom(text, [b, a], args)
      <==> Contains(va + behind, Pattern(b.name)) && vb != Pattern(b.name)
  {
    var text := before + (Pattern(a.name) + behind);
    var filled := before + (va + behind);
    OneSlotReplaced(a.name, before, behind, a.name, va);
    OneSlotReplaced(a.name, before, behind, b.name, vb);
    assert [a, b][1..] == [b] && [b, a][1..] == [a];
    var first := ReplaceAll(filled, Pattern(b.name), vb);
    assert RenderFrom(text, [a, b], args) == RenderFrom(filled, [b], args) == RenderFrom(first, [], args);
    assert RenderFrom(text, [b, a], args) == RenderFrom(text, [a], args) == RenderFrom(filled, [], args);
    ReplaceSkipsSafe(before, va + behind, b.name, vb);
    ReplaceChangesIff(va + behind, Pattern(b.name), vb);
    assert first[|before|..] == ReplaceAll(va + behind, Pattern(b.name), vb) && filled[|before|..] == va + behind;
  }

  /** What completes the placeholder that a value starts is itself safe text. */
  lemma CompletionIsSafe(value: string, name: string) returns (behind: string)
    requires BraceFree(name) && CanStart(value, Pattern(name))
    ensures Safe(behind) && Contains(value + behind, Pattern(name))
  {
    var p := Pattern(name);
    var i :| 0 <= i < |value| && (p <= value[i..] || value[i..] < p);
    behind := if p <= value[i..] then "" else p[|value| - i..];
    assert (value + behind)[i..] == value[i..] + behind;
    assert p <= (value + behind)[i..];
    if behind != "" {
      assert forall k :: 0 <= k < |behind| ==> behind[k] == p[|value| - i + k];
      assert forall k :: 0 <= k < |p| ==> p[k] == if k < 2 then '{' else if k < |name| + 2 then name[k - 2] else '}';
    }
  }

  /** If one value can start the other's placeholder, some template tells the two orders apart. */
  lemma HarmIsVisible(a: VarDef, b: VarDef, args: Args) returns (ts: seq<Token>)
    requires a.name != b.name && BraceFree(a.name) && BraceFree(b.name) && !HarmlessTo(a, b, args)
    ensures WellFormed(ts) && RenderFrom(Flatten(ts), [a, b], args) != RenderFrom(Flatten(ts), [b, a], args)
  {
    var va, vb := ValueOf(a, args).value, ValueOf(b, args).value;
    var behind := CompletionIsSafe(va, b.name);
    ts := [Slot(a.name), Lit(behind)];
    assert ts[1..] == [Lit(behind)] && ts[1..][1..] == [];
    assert Flatten(ts[1..]) == behind + "" == behind;
    assert Flatten(ts) == Pattern(a.name) + behind == "" + (Pattern(a.name) + behind);
    OrderMattersIff(a, b, va, vb, args, "", behind);
  }

  lemma NoneMissing(text: string, a: VarDef, b: VarDef, args: Args)
    requires ValueOf(a, args).Some? && ValueOf(b, args).Some?
    ensures RenderFrom(text, [a, b], args).Success? && RenderFrom(text, [b, a], args).Success?
  {
    RenderFailsIffMissing(text, [a, b], args);
    RenderFailsIffMissing(text, [b, a], args);
    MissingIsARequiredDef([a, b], args);
    MissingIsARequiredDef([b, a], args);
  }

  /** Rendering never depends on the order in which a selection of the definitions is declared. */
  ghost predicate OrderNeverMatters(defs: seq<VarDef>, args: Args) {
    forall chosen, other, ts :: ChosenFrom(chosen, defs) && ChosenFrom(other, defs) && SameDefs(chosen, other) && WellFormed(ts) ==>
      Agree(Flatten(ts), chosen, other, args)
  }

  /**
   * For any definitions and values: the order of declaration never matters, on any template and for any selection of the
   * definitions, if and only if no value can start the placeholder of another definition, unless that one is given its
   * own placeholder as value.
   */
  lemma OrderNeverMattersIff(defs: seq<VarDef>, args: Args)
    requires DistinctNames(defs) && forall i :: 0 <= i < |defs| ==> BraceFree(defs[i].name)
    ensures OrderNeverMatters(defs, args) <==> Harmless(defs, args)
  {
    if Harmless(defs, args) {
      forall chosen, other, ts
        | ChosenFrom(chosen, defs) && ChosenFrom(other, defs) && SameDefs(chosen, other) && WellFormed(ts)
        ensures Agree(Flatten(ts), chosen, other, args)
      {
        DeclarationOrderIsIrrelevant(ts, defs, chosen, other, args);
      }
    } else {
      var i, j :| 0 <= i < |defs| && 0 <= j < |defs| && i != j && !HarmlessTo(defs[i], defs[j], args);
      var a, b := defs[i], defs[j];
      var ts := HarmIsVisible(a, b, args);
      assert ChosenFrom([a, b], defs) && ChosenFrom([b, a], defs) && SameDefs([a, b], [b, a]);
      NoneMissing(Flatten(ts), a, b, args);
      assert !Agree(Flatten(ts), [a, b], [b, a], args);
    }
  }

  /** On any template and for any selection of the definitions, replacing one variable after the other is substituting at once. */
  ghost predicate AlwaysSimultaneous(defs: seq<VarDef>, args: Args) {
    forall chosen, ts :: ChosenFrom(chosen, defs) && WellFormed(ts) ==>
      RenderFrom(Flatten(ts), chosen, args) == Simultaneous(ts, chosen, args)
  }

  /** The condition is also the exact one for the replacement loop to be a simultaneous substitution. */
  lemma AlwaysSimultaneousIff(defs: seq<VarDef>, args: Args)
    requires DistinctNames(defs) && forall i :: 0 <= i < |defs| ==> BraceFree(defs[i].name)
    ensures AlwaysSimultaneous(defs, args) <==> Harmless(defs, args)
  {
    if Harmless(defs, args) {
      forall chosen, ts | ChosenFrom(chosen, defs) && WellFormed(ts)
        ensures RenderFrom(Flatten(ts), chosen, args) == Simultaneous(ts, chosen, args)
      {
        ChosenIsForward(chosen, defs, args);
        SequentialIsSimultaneous(ts, chosen, args);
      }
    } else if AlwaysSimultaneous(defs, args) {
      forall chosen, other, ts
        | ChosenFrom(chosen, defs) && ChosenFrom(other, defs) && SameDefs(chosen, other) && WellFormed(ts)
        ensures Agree(Flatten(ts), chosen, other, args)
      {
        SimultaneousIgnoresOrder(ts, chosen, other, args);
      }
      OrderNeverMattersIff(defs, args);
    }
  }

  /** For two definitions with values: their order never matters if and only if neither harms the other. */
  lemma TwoOrdersAgreeIff(a: VarDef, b: VarDef, va: string, vb: string, args: Args)
    requires a.name != b.name && BraceFree(a.name) && BraceFree(b.name)
    requires ValueOf(a, args) == Some(va) && ValueOf(b, args) == Some(vb)
    ensures (forall ts :: WellFormed(ts) ==> RenderFrom(Flatten(ts), [a, b], args) == RenderFrom(Flatten(ts), [b, a], args))
       <==> (vb == Pattern(b.name) || !CanStart(va, Pattern(b.name))) && (va == Pattern(a.name) || !CanStart(vb, Pattern(a.name)))
  {
    if !HarmlessTo(a, b, args) {
      var ts := HarmIsVisible(a, b, args);
    } else if !HarmlessTo(b, a, args) {
      var ts := HarmIsVisible(b, a, args);
    } else {
      forall ts | WellFormed(ts) ensures RenderFrom(Flatten(ts), [a, b], args) == RenderFrom(Flatten(ts), [b, a], args) {
        DeclarationOrderIsIrrelevant(ts, [a, b], [a, b], [b, a], args);
        NoneMissing(Flatten(ts), a, b, args);
        assert Agree(Flatten(ts), [a, b], [b, a], args);
      }
    }
  }

  /** For instance, a value that names another placeholder. */
  lemma UnsafeValueDependsOnOrder()
    ensures var a, b := VarDef("a", false, Some("{{b}}")), VarDef("b", false, Some("x"));
      RenderFrom("Hello {{a}}", [a, b], map[]) != RenderFrom("Hello {{a}}", [b, a], map[])
  {
    var a, b := VarDef("a", false, Some("{{b}}")), VarDef("b", false, Some("x"));
    assert "Hello " + (Pattern("a") + "") == "Hello {{a}}";
    assert Pattern("b") <= ("{{b}}" + "")[0..];
    OrderMattersIff(a, b, "{{b}}", "x", map[], "Hello ", "");
  }

  /** Or a single brace that the template goes on to complete. */
  lemma OpenBraceDependsOnOrder()
    ensures var a, b := VarDef("a", false, Some("{")), VarDef("b", false, Some("x"));
      RenderFrom("Hello {{a}}{b}}", [a, b], map[]) != RenderFrom("Hello {{a}}{b}}", [b, a], map[])
  {
    var a, b := VarDef("a", false, Some("{")), VarDef("b", false, Some("x"));
    assert "Hello " + (Pattern("a") + "{b}}") == "Hello {{a}}{b}}";
    assert Pattern("b") <= ("{" + "{b}}")[0..];
    OrderMattersIff(a, b, "{", "x", map[], "Hello ", "{b}}");
  }

  // ---- Extraction ----

  function SpanSpace(s: string): (n: nat)
    ensures n <= |s|
  {
    if s != "" && IsSpace(s[0]) then 1 + SpanSpace(s[1..]) else 0
  }

  function SpanWord(s: string): (n: nat)
    ensures n <= |s|
  {
    if s != "" && IsWord(s[0]) then 1 + SpanWord(s[1..]) else 0
  }

  lemma {:induction false} SpansHoldTheirClass(s: string)
    ensures forall i :: 0 <= i < SpanSpace(s) ==> IsSpace(s[i])
    ensures forall i :: 0 <= i < SpanWord(s) ==> IsWord(s[i])
  {
    if s != "" {
      SpansHoldTheirClass(s[1..]);
      assert forall i :: 0 < i < |s| ==> s[i] == s[1..][i - 1];
    }
  }

  /** Where leading blanks, then a word, then blanks end. */
  function Shape(t: string): (r: (nat, nat, nat))
    ensures r.0 <= r.1 <= r.2 <= |t|
  {
    var a := SpanSpace(t);
    var w := a + SpanWord(t[a..]);
    (a, w, w + SpanSpace(t[w..]))
  }

  /** How many characters the group \s*\w+\s* takes when it and the closing braces match at the start of the text. */
  function GroupLength(t: string): (n: Option<nat>)
    ensures n.Some? ==> n.value + 2 <= |t| && t[n.value] == '}' && t[n.value + 1] == '}'
  {
    var (a, w, e) := Shape(t);
    if a < w && e + 1 < |t| && t[e] == '}' && t[e + 1] == '}' then Some(e) else None
  }

  /** The group the regular expression captures when it matches at the start of the text. */
  function MatchHere(s: string): (group: Option<string>)
    ensures group.Some? ==> |Pattern(group.value)| <= |s|
  {
    if |s| < 2 || s[0] != '{' || s[1] != '{' || GroupLength(s[2..]) == None then None
    else Some(s[2..2 + GroupLength(s[2..]).value])
  }

  /** re.findall: captured groups, leftmost first and non-overlapping. */
  function FindAll(s: string): seq<string>
    decreases |s|
  {
    if s == "" then []
    else match MatchHere(s)
      case Some(group) => [group] + FindAll(s[|Pattern(group)|..])
      case None => FindAll(s[1..])
  }

  function StripAll(groups: seq<string>): (names: seq<string>)
    ensures |names| == |groups| && forall i :: 0 <= i < |groups| ==> names[i] == Strip(groups[i])
  {
    if groups == [] then [] else [Strip(groups[0])] + StripAll(groups[1..])
  }

  /** Of the first n names, each once, at its first appearance. */
  function FirstAppearances(names: seq<string>, n: nat): seq<string>
    requires n <= |names|
  {
    if n == 0 then []
    else if names[n - 1] in names[..n - 1] then FirstAppearances(names, n - 1)
    else FirstAppearances(names, n - 1) + [names[n - 1]]
  }

  function Distinct(names: seq<string>): seq<string> {
    FirstAppearances(names, |names|)
  }

  function Detected(content: string): seq<string> {
    Distinct(StripAll(FindAll(content)))
  }

  method Deduplicate(matches: seq<string>) returns (result: seq<string>)
    ensures result == Distinct(StripAll(matches))
  {
    ghost var names := StripAll(matches);
    var seen: set<string> := {};
    result := [];
    for i := 0 to |matches|
      invariant result == FirstAppearances(names, i)
      invariant forall n :: n in seen <==> n in names[..i]
    {
      var name := Strip(matches[i]);
      assert names[..i + 1] == names[..i] + [name];
      if name !in seen {
        seen := seen + {name};
        result := result + [name];
      }
    }
  }

  method ExtractVariables(content: string) returns (result: seq<string>)
    ensures result == Detected(content)
  {
    result := Deduplicate(FindAll(content));
  }

  function IndexOf(names: seq<string>, name: string): (i: nat)
    requires name in names
    ensures i < |names| && names[i] == name && name !in names[..i]
  {
    if names[0] == name then 0
    else
      var k := IndexOf(names[1..], name);
      assert names[..k + 1] == [names[0]] + names[1..][..k];
      1 + k
  }

  lemma {:induction false} FirstIndexIsUnique(names: seq<string>, name: string, k: nat)
    requires k < |names| && names[k] == name && name !in names[..k]
    ensures IndexOf(names, name) == k
  {
  }

  lemma {:induction false} FirstIndexBelow(names: seq<string>, name: string, n: nat)
    requires n <= |names| && name in names[..n]
    ensures IndexOf(names, name) < n
  {
  }

  lemma {:induction false} AppearancesAreMembers(names: seq<string>, n: nat)
    requires n <= |names|
    ensures forall name :: name in FirstAppearances(names, n) <==> name in names[..n]
  {
    if n > 0 {
      AppearancesAreMembers(names, n - 1);
      assert names[..n] == names[..n - 1] + [names[n - 1]];
    }
  }

  lemma {:induction false} AppearancesInOrder(names: seq<string>, n: nat, i: nat, j: nat)
    requires n <= |names| && i < j < |FirstAppearances(names, n)|
    ensures var r := FirstAppearances(names, n);
      r[i] in names[..n] && r[j] in names[..n] && IndexOf(names, r[i]) < IndexOf(names, r[j])
  {
    var r, before := FirstAppearances(names, n), FirstAppearances(names, n - 1);
    assert names[..n] == names[..n - 1] + [names[n - 1]];
    if j < |before| {
      AppearancesInOrder(names, n - 1, i, j);
    } else {
      AppearancesAreMembers(names, n - 1);
      assert r[i] == before[i] && before[i] in before;
      FirstIndexBelow(names, r[i], n - 1);
      FirstIndexIsUnique(names, r[j], n - 1);
    }
  }

  /** Extraction lists every name exactly once, ordered by where each first appears. */
  lemma ExtractionOrder(names: seq<string>)
    ensures forall n :: n in Distinct(names) <==> n in names
    ensures var r := Distinct(names);
      forall i, j :: 0 <= i < j < |r| ==> r[i] in names && r[j] in names && IndexOf(names, r[i]) < IndexOf(names, r[j])
  {
    var r := Distinct(names);
    assert r == FirstAppearances(names, |names|) && names[..|names|] == names;
    AppearancesAreMembers(names, |names|);
    forall i, j | 0 <= i < j < |r|
      ensures r[i] in names && r[j] in names && IndexOf(names, r[i]) < IndexOf(names, r[j])
    {
      AppearancesInOrder(names, |names|, i, j);
    }
  }

  /** Optional blanks, a word, optional blanks. */
  predicate IsPlaceholder(inner: string) {
    var (a, w, e) := Shape(inner);
    a < w && e == |inner|
  }

  lemma {:induction false} SpansStopAtBrace(s: string, rest: string)
    requires rest != "" && rest[0] == '}'
    ensures SpanSpace(s + rest) == SpanSpace(s) && SpanWord(s + rest) == SpanWord(s)
  {
    assert !IsSpace('}') && !IsWord('}');
    if s == "" {
      assert s + rest == rest;
    } else {
      assert (s + rest)[0] == s[0] && (s + rest)[1..] == s[1..] + rest;
      SpansStopAtBrace(s[1..], rest);
    }
  }

  lemma SpansFrom(inner: string, tail: string, k: nat)
    requires k <= |inner| && tail != "" && tail[0] == '}'
    ensures SpanSpace((inner + tail)[k..]) == SpanSpace(inner[k..])
    ensures SpanWord((inner + tail)[k..]) == SpanWord(inner[k..])
  {
    assert (inner + tail)[k..] == inner[k..] + tail;
    SpansStopAtBrace(inner[k..], tail);
  }

  lemma ShapeStopsAtBrace(inner: string, tail: string)
    requires tail != "" && tail[0] == '}'
    ensures Shape(inner + tail) == Shape(inner)
  {
    var (a, w, e) := Shape(inner);
    assert SpanSpace(inner + tail) == a by { SpansStopAtBrace(inner, tail); }
    assert SpanWord((inner + tail)[a..]) == SpanWord(inner[a..]) by { SpansFrom(inner, tail, a); }
    assert SpanSpace((inner + tail)[w..]) == SpanSpace(inner[w..]) by { SpansFrom(inner, tail, w); }
  }

  lemma GroupIsWholeSlot(inner: string, tail: string)
    requires BraceFree(inner) && |tail| >= 2 && tail[0] == '}' && tail[1] == '}'
    ensures GroupLength(inner + tail) == if IsPlaceholder(inner) then Some(|inner|) else None
  {
    ShapeStopsAtBrace(inner, tail);
    var (a, w, e) := Shape(inner);
    assert (inner + tail)[e] == if e < |inner| then inner[e] else tail[0];
  }

  lemma SlotIsMatchedWhole(inner: string, rest: string)
    requires BraceFree(inner)
    ensures MatchHere(Pattern(inner) + rest) == if IsPlaceholder(inner) then Some(inner) else None
  {
    var s := Pattern(inner) + rest;
    assert s[2..] == inner + ("}}" + rest);
    GroupIsWholeSlot(inner, "}}" + rest);
    assert s[2..2 + |inner|] == inner;
  }

  lemma {:induction false} FindSkipsSafe(text: string, rest: string)
    requires Safe(text)
    ensures FindAll(text + rest) == FindAll(rest)
  {
    var s := text + rest;
    if text == "" {
      assert s == rest;
    } else {
      assert MatchHere(s) == None;
      assert s[1..] == text[1..] + rest;
      FindSkipsSafe(text[1..], rest);
    }
  }

  lemma FindAtSlot(inner: string, rest: string)
    requires BraceFree(inner)
    ensures FindAll(Pattern(inner) + rest) == (if IsPlaceholder(inner) then [inner] else []) + FindAll(rest)
  {
    var s := Pattern(inner) + rest;
    SlotIsMatchedWhole(inner, rest);
    if IsPlaceholder(inner) {
      assert s[|Pattern(inner)|..] == rest;
    } else {
      SlotTailIsSafe(inner);
      assert s[1..] == "{" + inner + "}}" + rest;
      FindSkipsSafe("{" + inner + "}}", rest);
    }
  }

  lemma ShapeClasses(g: string)
    ensures var (a, w, e) := Shape(g);
      && (forall i :: 0 <= i < a ==> IsSpace(g[i]))
      && (forall i :: a <= i < w ==> IsWord(g[i]))
      && (forall i :: w <= i < e ==> IsSpace(g[i]))
  {
    var (a, w, e) := Shape(g);
    SpansHoldTheirClass(g);
    SpansHoldTheirClass(g[a..]);
    SpansHoldTheirClass(g[w..]);
    assert forall i :: a <= i < w ==> g[i] == g[a..][i - a];
    assert forall i :: w <= i < e ==> g[i] == g[w..][i - w];
  }

  lemma {:induction false} SpaceSpan(left: string, rest: string)
    requires (forall c :: c in left ==> IsSpace(c)) && (rest == "" || !IsSpace(rest[0]))
    ensures SpanSpace(left + rest) == |left|
  {
    if left == "" {
      assert left + rest == rest;
    } else {
      assert (left + rest)[1..] == left[1..] + rest;
      SpaceSpan(left[1..], rest);
    }
  }

  lemma {:induction false} WordSpan(word: string, rest: string)
    requires (forall c :: c in word ==> IsWord(c)) && (rest == "" || !IsWord(rest[0]))
    ensures SpanWord(word + rest) == |word|
  {
    if word == "" {
      assert word + rest == rest;
    } else {
      assert (word + rest)[1..] == word[1..] + rest;
      WordSpan(word[1..], rest);
    }
  }

  ghost predicate PaddedWord(left: string, word: string, right: string) {
    && word != "" && (forall c :: c in word ==> IsWord(c))
    && (forall c :: c in left ==> IsSpace(c)) && (forall c :: c in right ==> IsSpace(c))
  }

  lemma PaddedWordIsPlaceholder(left: string, word: string, right: string)
    requires PaddedWord(left, word, right)
    ensures IsPlaceholder(left + word + right)
  {
    var g := left + word + right;
    assert g[|left|..] == word + right && g[|left| + |word|..] == right + "" && g == left + (word + right);
    assert word[0] in word && (right != "" ==> right[0] in right);
    SpaceSpan(left, word + right);
    WordSpan(word, right);
    SpaceSpan(right, "");
  }

  /** A placeholder is a word, possibly with blanks around it. */
  lemma PlaceholderIff(g: string)
    ensures IsPlaceholder(g) <==> exists left, word, right :: PaddedWord(left, word, right) && g == left + word + right
  {
    if IsPlaceholder(g) {
      var (a, w, e) := Shape(g);
      ShapeClasses(g);
      assert PaddedWord(g[..a], g[a..w], g[w..]) && g == g[..a] + g[a..w] + g[w..];
    }
    if left, word, right :| PaddedWord(left, word, right) && g == left + word + right {
      PaddedWordIsPlaceholder(left, word, right);
    }
  }

  /** A placeholder of the language starts the text. */
  ghost predicate StartsPlaceholder(s: string) {
    exists g :: IsPlaceholder(g) && BraceFree(g) && Pattern(g) <= s
  }

  lemma ShapeIsBraceFree(t: string)
    ensures BraceFree(t[..Shape(t).2])
  {
    ShapeClasses(t);
  }

  lemma GroupIsPlaceholder(t: string)
    requires GroupLength(t).Some?
    ensures IsPlaceholder(t[..GroupLength(t).value]) && BraceFree(t[..GroupLength(t).value])
  {
    var e := GroupLength(t).value;
    ShapeIsBraceFree(t);
    assert t == t[..e] + t[e..];
    ShapeStopsAtBrace(t[..e], t[e..]);
  }

  lemma PatternBegins(s: string, g: string, rest: string)
    requires |s| >= 2 && s[0] == '{' && s[1] == '{' && s[2..] == g + "}}" + rest
    ensures Pattern(g) <= s
  {
    assert s == "{{" + s[2..] == Pattern(g) + rest;
  }

  lemma MatchHoldsPlaceholder(s: string)
    requires MatchHere(s).Some?
    ensures var g := MatchHere(s).value; IsPlaceholder(g) && BraceFree(g) && Pattern(g) <= s
  {
    var t, e := s[2..], GroupLength(s[2..]).value;
    GroupIsPlaceholder(t);
    assert s[2..2 + e] == t[..e];
    assert t == t[..e] + "}}" + t[e + 2..] by {
      assert t[e..] == "}}" + t[e + 2..];
    }
    PatternBegins(s, t[..e], t[e + 2..]);
  }

  lemma MatchIsPlaceholder(s: string)
    ensures MatchHere(s).Some? <==> StartsPlaceholder(s)
  {
    if MatchHere(s).Some? {
      MatchHoldsPlaceholder(s);
    }
    if g :| IsPlaceholder(g) && BraceFree(g) && Pattern(g) <= s {
      assert s == Pattern(g) + s[|Pattern(g)|..];
      SlotIsMatchedWhole(g, s[|Pattern(g)|..]);
    }
  }

  lemma {:induction false} FindSkips(before: string, rest: string)
    requires forall k :: 0 <= k < |before| ==> !StartsPlaceholder((before + rest)[k..])
    ensures FindAll(before + rest) == FindAll(rest)
  {
    var s := before + rest;
    if before == "" {
      assert s == rest;
    } else {
      assert s[0..] == s && s[1..] == before[1..] + rest;
      MatchIsPlaceholder(s);
      forall k | 0 <= k < |before[1..]| ensures !StartsPlaceholder((before[1..] + rest)[k..]) {
        assert s[1..][k..] == s[k + 1..];
      }
      FindSkips(before[1..], rest);
    }
  }

  /** On any text the extraction takes the leftmost placeholder and goes on behind it; without one it finds nothing. */
  lemma FindLeftmost(before: string, g: string, rest: string)
    requires IsPlaceholder(g) && BraceFree(g)
    requires forall k :: 0 <= k < |before| ==> !StartsPlaceholder((before + (Pattern(g) + rest))[k..])
    ensures FindAll(before + (Pattern(g) + rest)) == [g] + FindAll(rest)
  {
    FindSkips(before, Pattern(g) + rest);
    FindAtSlot(g, rest);
  }

  lemma {:induction false} FindsNothingIff(s: string)
    ensures FindAll(s) == [] <==> forall k :: 0 <= k <= |s| ==> !StartsPlaceholder(s[k..])
    decreases |s|
  {
    MatchIsPlaceholder(s);
    if s == "" {
      assert s[0..] == "";
    } else {
      assert s[0..] == s;
      FindsNothingIff(s[1..]);
      assert forall k :: 0 < k <= |s| ==> s[k..] == s[1..][k - 1..];
      assert forall k :: 0 <= k <= |s[1..]| ==> s[1..][k..] == s[k + 1..];
    }
  }

  /** The slots of a template that the extraction recognises. */
  function Groups(ts: seq<Token>): seq<string> {
    if ts == [] then []
    else if ts[0].Slot? && IsPlaceholder(ts[0].inner) then [ts[0].inner] + Groups(ts[1..])
    else Groups(ts[1..])
  }

  /** On a template's text the regular expression finds its placeholder slots, in order, and nothing else. */
  lemma {:induction false} ExtractionFindsSlots(ts: seq<Token>)
    requires WellFormed(ts)
    ensures FindAll(Flatten(ts)) == Groups(ts)
  {
    if ts != [] {
      var rest := Flatten(ts[1..]);
      ExtractionFindsSlots(ts[1..]);
      assert SafeToken(ts[0]);
      match ts[0] {
        case Lit(text) => FindSkipsSafe(text, rest);
        case Slot(inner) => FindAtSlot(inner, rest);
      }
    }
  }

  // ---- Rendering a template whose variables were auto-detected ----

  /** The definitions stored when a request declares no variables. */
  function AutoDefs(names: seq<string>): (defs: seq<VarDef>)
    ensures |defs| == |names| && forall i :: 0 <= i < |names| ==> defs[i] == VarDef(names[i], true, None)
  {
    seq(|names|, i requires 0 <= i < |names| => VarDef(names[i], true, None))
  }

  /** The captured groups with blanks around the name. */
  function Padded(groups: seq<string>): (r: seq<string>)
    ensures r == [] <==> forall g :: g in groups ==> Strip(g) == g
  {
    if groups == [] then []
    else if Strip(groups[0]) != groups[0] then
      assert groups[0] in groups;
      [groups[0]] + Padded(groups[1..])
    else
      assert forall g :: g in groups <==> g == groups[0] || g in groups[1..];
      Padded(groups[1..])
  }

  ghost predicate SafeValues(defs: seq<VarDef>, args: Args) {
    forall i :: 0 <= i < |defs| ==>
      BraceFree(defs[i].name) && (ValueOf(defs[i], args).Some? ==> Safe(ValueOf(defs[i], args).value))
  }

  lemma SafeIsForward(defs: seq<VarDef>, args: Args)
    requires SafeValues(defs, args)
    ensures Forward(defs, args)
  {
    forall i, j | 0 <= i < j < |defs| ensures HarmlessTo(defs[i], defs[j], args) {
      if ValueOf(defs[i], args).Some? {
        SafeStartsNothing(ValueOf(defs[i], args).value, defs[j].name);
      }
    }
  }

  function Resolve(ts: seq<Token>, defs: seq<VarDef>, args: Args): seq<Token> {
    if ts == [] then []
    else
      var t := if ts[0].Slot? && Binding(defs, args, ts[0].inner).Some?
               then Lit(Binding(defs, args, ts[0].inner).value) else ts[0];
      [t] + Resolve(ts[1..], defs, args)
  }

  lemma {:induction false} ResolvedTemplate(ts: seq<Token>, defs: seq<VarDef>, args: Args)
    requires WellFormed(ts) && SafeValues(defs, args)
    requires forall i :: 0 <= i < |ts| && ts[i].Slot? && IsPlaceholder(ts[i].inner) ==>
               (Binding(defs, args, ts[i].inner).Some? <==> Strip(ts[i].inner) == ts[i].inner)
    ensures WellFormed(Resolve(ts, defs, args))
    ensures Flatten(Resolve(ts, defs, args)) == Substitute(ts, defs, args)
    ensures Groups(Resolve(ts, defs, args)) == Padded(Groups(ts))
  {
    if ts != [] {
      assert SafeToken(ts[0]);
      ResolvedTemplate(ts[1..], defs, args);
      var r := Resolve(ts, defs, args);
      assert SafeToken(r[0]);
      assert r[1..] == Resolve(ts[1..], defs, args);
      assert forall i :: 0 < i < |r| ==> r[i] == r[1..][i - 1];
    }
  }

  lemma PlaceholderName(g: string)
    requires IsPlaceholder(g)
    ensures Strip(g) != "" && (Strip(g) == g <==> Stripped(g))
  {
    var (a, w, e) := Shape(g);
    ShapeClasses(g);
    StripPadded(g[..a], g[a..w], g[w..]);
    assert g == g[..a] + g[a..w] + g[w..];
    if Stripped(g) {
      StripPadded("", g, "");
      assert "" + g + "" == g;
    }
  }

  lemma {:induction false} GroupsAreSlots(ts: seq<Token>, g: string)
    requires WellFormed(ts) && g in Groups(ts)
    ensures IsPlaceholder(g) && BraceFree(g)
  {
    assert SafeToken(ts[0]);
    if ts[0] != Slot(g) || !IsPlaceholder(g) {
      GroupsAreSlots(ts[1..], g);
    }
  }

  lemma {:induction false} GroupsHoldPlaceholders(ts: seq<Token>, g: string)
    requires Slot(g) in ts && IsPlaceholder(g)
    ensures g in Groups(ts)
  {
    if ts[0] != Slot(g) {
      GroupsHoldPlaceholders(ts[1..], g);
    }
  }

  ghost predicate AllGivenSafely(names: seq<string>, args: Args) {
    forall n :: n in names ==> n in args && args[n].Some? && Safe(args[n].value)
  }

  lemma StrippedGroups(groups: seq<string>, n: string)
    ensures n in StripAll(groups) <==> exists g :: g in groups && Strip(g) == n
  {
  }

  lemma DetectedNames(ts: seq<Token>, n: string)
    requires WellFormed(ts)
    ensures n in Detected(Flatten(ts)) <==> exists g :: g in Groups(ts) && Strip(g) == n
    ensures n in Detected(Flatten(ts)) ==> BraceFree(n) && Stripped(n)
  {
    var groups := Groups(ts);
    ExtractionFindsSlots(ts);
    ExtractionOrder(StripAll(groups));
    StrippedGroups(groups, n);
    if n in StripAll(groups) {
      var g :| g in groups && Strip(g) == n;
      GroupsAreSlots(ts, g);
      assert forall c :: c in n ==> c in g;
      forall i | 0 <= i < |n| ensures n[i] != '{' && n[i] != '}' {
        assert n[i] in n;
      }
    }
  }

  lemma DetectedDefsAreSafe(ts: seq<Token>, args: Args)
    requires WellFormed(ts) && AllGivenSafely(Detected(Flatten(ts)), args)
    ensures var defs := AutoDefs(Detected(Flatten(ts)));
      SafeValues(defs, args) && FirstMissing(defs, args) == None
  {
    var names := Detected(Flatten(ts));
    var defs := AutoDefs(names);
    forall i | 0 <= i < |defs| ensures BraceFree(names[i]) && ValueOf(defs[i], args) == args[names[i]] {
      DetectedNames(ts, names[i]);
      assert names[i] in names;
    }
    MissingIsARequiredDef(defs, args);
  }

  lemma BoundIffUnpadded(ts: seq<Token>, args: Args, g: string)
    requires WellFormed(ts) && AllGivenSafely(Detected(Flatten(ts)), args)
    requires Slot(g) in ts && IsPlaceholder(g)
    ensures Binding(AutoDefs(Detected(Flatten(ts))), args, g).Some? <==> Strip(g) == g
  {
    var names := Detected(Flatten(ts));
    var defs := AutoDefs(names);
    GroupsHoldPlaceholders(ts, g);
    PlaceholderName(g);
    DetectedNames(ts, g);
    if Strip(g) == g {
      var j :| 0 <= j < |names| && names[j] == g;
      assert defs[j].name == g && ValueOf(defs[j], args).Some?;
    }
  }

  /**
   * Given a safe value for every detected name, a call succeeds exactly when no argument is named self, and then the
   * placeholders left in the result are exactly those written with blanks inside the braces: they are detected, but never
   * substituted.
   */
  lemma AutoDetectedRenderLeavesOnlyPadded(ts: seq<Token>, args: Args)
    requires WellFormed(ts) && AllGivenSafely(Detected(Flatten(ts)), args)
    ensures var r := CallRender(Flatten(ts), AutoDefs(Detected(Flatten(ts))), args);
      && (r.Success? <==> SELF !in args)
      && (r.Success? ==> FindAll(r.value) == Padded(FindAll(Flatten(ts))))
  {
    var defs := AutoDefs(Detected(Flatten(ts)));
    DetectedDefsAreSafe(ts, args);
    SafeIsForward(defs, args);
    SequentialIsSimultaneous(ts, defs, args);
    forall i | 0 <= i < |ts| && ts[i].Slot? && IsPlaceholder(ts[i].inner)
      ensures Binding(defs, args, ts[i].inner).Some? <==> Strip(ts[i].inner) == ts[i].inner
    {
      BoundIffUnpadded(ts, args, ts[i].inner);
    }
    ResolvedTemplate(ts, defs, args);
    ExtractionFindsSlots(ts);
    ExtractionFindsSlots(Resolve(ts, defs, args));
  }

  /** So a rendered text is free of placeholders if and only if the template writes none of them with blanks. */
  lemma RenderedCleanIffUnpadded(ts: seq<Token>, args: Args)
    requires WellFormed(ts) && AllGivenSafely(Detected(Flatten(ts)), args)
    ensures var r := CallRender(Flatten(ts), AutoDefs(Detected(Flatten(ts))), args);
      && (r.Success? <==> SELF !in args)
      && (r.Success? ==> (FindAll(r.value) == [] <==> forall g :: g in FindAll(Flatten(ts)) ==> Strip(g) == g))
  {
    AutoDetectedRenderLeavesOnlyPadded(ts, args);
  }

  /** A text whose variables were auto-detected can be rendered by some arguments if and only if none is named self. */
  lemma AutoDetectedRenderableIff(content: string)
    ensures (exists args: Args :: CallRender(content, AutoDefs(Detected(content)), args).Success?)
       <==> SELF !in Detected(content)
  {
    var names := Detected(content);
    var defs := AutoDefs(names);
    if SELF in names {
      var i :| 0 <= i < |names| && names[i] == SELF;
      assert defs[i] == VarDef(SELF, true, None);
      forall args: Args ensures CallRender(content, defs, args).Failure? {
        RequiredSelfIsUnrenderable(content, defs, args);
      }
    } else {
      var args: Args := map n | n in names :: Some("");
      forall d | d in defs ensures ValueOf(d, args) == Some("") {
        assert d.name in names;
      }
      CallFailsIff(content, defs, args);
    }
  }

  lemma OneSlot(before: string, inner: string)
    requires Safe(before) && IsPlaceholder(inner) && BraceFree(inner)
    ensures FindAll(before + Pattern(inner)) == [inner]
  {
    FindSkipsSafe(before, Pattern(inner));
    FindAtSlot(inner, "");
    assert Pattern(inner) + "" == Pattern(inner);
  }

  lemma OneName(inner: string)
    ensures Distinct(StripAll([inner])) == [Strip(inner)]
  {
    var names := StripAll([inner]);
    assert names == [Strip(inner)] && names[..0] == [];
    assert FirstAppearances(names, 0) == [] && FirstAppearances(names, 1) == [Strip(inner)];
  }

  lemma SelfIsPlaceholder()
    ensures IsPlaceholder(SELF) && Strip(SELF) == SELF
  {
    assert SELF[1..] == "elf" && "elf"[1..] == "lf" && "lf"[1..] == "f" && "f"[1..] == "";
    assert SpanWord("") == 0 && SpanWord("f") == 1 && SpanWord("lf") == 2 && SpanWord("elf") == 3 && SpanWord(SELF) == 4;
    assert SpanSpace(SELF) == 0 && SELF[0..] == SELF && SELF[4..] == "" && SpanSpace("") == 0;
    StripPadded("", SELF, "");
    assert "" + SELF + "" == SELF;
  }

  /** For instance, a template such as "Hello {{self}}" with its auto-detected variable fails for every choice of arguments. */
  lemma SelfPlaceholderNeverRenders(before: string, args: Args)
    requires Safe(before)
    ensures var content := before + Pattern(SELF);
      Detected(content) == [SELF] && CallRender(content, AutoDefs(Detected(content)), args).Failure?
  {
    SelfIsPlaceholder();
    OneSlot(before, SELF);
    OneName(SELF);
    assert AutoDefs([SELF])[0] == VarDef(SELF, true, None);
    RequiredSelfIsUnrenderable(before + Pattern(SELF), AutoDefs([SELF]), args);
  }

  lemma RenderOne(content: string, name: string, value: string)
    requires name != SELF
    ensures CallRender(content, AutoDefs([name]), map[name := Some(value)]) == Success(ReplaceAll(content, Pattern(name), value))
    ensures CallRender(content, AutoDefs([name]), map[]) == Failure(MissingVariable(name))
  {
    var defs := AutoDefs([name]);
    var args: Args := map[name := Some(value)];
    var text := ReplaceAll(content, Pattern(name), value);
    assert defs[0] == VarDef(name, true, None) && defs[1..] == [];
    assert RenderFrom(content, defs, args) == RenderFrom(text, [], args) == Success(text);
  }

  /** A template with one placeholder, written with blanks, demands a value that never appears in its rendering. */
  lemma PaddedPlaceholderStays(before: string, inner: string, value: string)
    requires Safe(before) && IsPlaceholder(inner) && BraceFree(inner) && Strip(inner) != inner && Strip(inner) != SELF
    ensures var content, name := before + Pattern(inner), Strip(inner);
      && Detected(content) == [name]
      && CallRender(content, AutoDefs([name]), map[name := Some(value)]) == Success(content)
      && CallRender(content, AutoDefs([name]), map[]) == Failure(MissingVariable(name))
  {
    var content, name := before + Pattern(inner), Strip(inner);
    OneSlot(before, inner);
    OneName(inner);
    assert BraceFree(name) by {
      assert forall c :: c in name ==> c in inner;
      assert forall i :: 0 <= i < |name| ==> name[i] in name;
    }
    assert Pattern(inner) + "" == Pattern(inner);
    OneSlotReplaced(inner, before, "", name, value);
    RenderOne(content, name, value);
  }

  lemma PaddedNameIsPlaceholder()
    ensures IsPlaceholder(" x ") && Strip(" x ") == "x"
  {
    assert " x "[1..] == "x " && "x "[1..] == " " && " "[1..] == "" && " x "[2..] == " ";
    assert SpanSpace("") == 0 && SpanSpace(" ") == 1 && SpanSpace("x ") == 0 && SpanSpace(" x ") == 1;
    assert SpanWord(" ") == 0 && SpanWord("x ") == 1;
    StripPadded(" ", "x", " ");
    assert " " + "x" + " " == " x ";
  }

  /** For instance, "Hello {{ x }}" greets nobody. */
  lemma BlanksGreetNobody()
    ensures CallRender("Hello " + Pattern(" x "), AutoDefs(["x"]), map["x" := Some("Ada")]) == Success("Hello " + Pattern(" x "))
  {
    PaddedNameIsPlaceholder();
    PaddedPlaceholderStays("Hello ", " x ", "Ada");
  }
}
