/**
 * The validation engine of `BaseValidator` stated as functions: rule normalisation, the
 * per-field merge of rule maps, the rule loop of a single field (with `required` gating,
 * `!` negation, quick mode and `invalidates` redirection), validator dispatch, the
 * `array` rule that runs the loop again on every element, and the composition of error
 * messages into the error table. The class in `validator.dfy` is proved against these.
 *
 * An exception thrown by the engine is a `Fault`: the engine stops, and whatever it had
 * written to the error table so far stays there.
 */
module Engine {
  import opened PhpValues
  import opened DotSyntax
  import opened References
  import opened Rules

  datatype Fault =
    | UnknownValidator(name: string)  // neither a built-in nor a callable custom validator
    | RewriteLimit                    // marker rewriting did not end within `Fuel` rounds

  datatype Status = Done(valid: bool) | Raised(fault: Fault)

  /** The error table after a step, and how the step ended. */
  datatype Run = Run(errs: seq<Entry>, status: Status)

  /** A custom validator: input, (resolved) params, field id, data to a verdict. */
  type CustomFn = (Value, Value, string, Value) -> bool

  /** An entry of the custom validator pool: callable, or something `is_callable` rejects. */
  datatype Callback = Callable(f: CustomFn) | NotCallable

  /**
   * What a run reads from the validator besides the error table; `builtins` names the
   * validator's own rule methods (`Rules.BuiltinNames`) and `builtin` gives their
   * verdicts (`Rules.Verdicts`).
   */
  datatype Ctx = Ctx(php: Php, builtins: set<string>, builtin: BuiltinFn, data: Value, quick: bool, messages: seq<Entry>, custom: map<string, Callback>)

  /** String conversion and `ads_get` on the data, as the reference resolution uses them. */
  function Show(ctx: Ctx): Value -> string { v => PhpString(ctx.php, v) }

  function Get(ctx: Ctx): string -> Value { p => AdsGet(ctx.data, p) }

  /** The message pool a `Validator` starts with: one message per built-in rule. */
  const DefaultMessages: seq<Entry> := [
    Entry(SKey("array"), Str("VALIDATOR_ARRAY")),
    Entry(SKey("count"), Str("VALIDATOR_COUNT")),
    Entry(SKey("date"), Str("VALIDATOR_DATE")),
    Entry(SKey("date_after"), Str("VALIDATOR_DATE_AFTER")),
    Entry(SKey("date_before"), Str("VALIDATOR_DATE_BEFORE")),
    Entry(SKey("email"), Str("VALIDATOR_EMAIL")),
    Entry(SKey("eq"), Str("VALIDATOR_EQUAL")),
    Entry(SKey("eq_strict"), Str("VALIDATOR_EQUAL_STRICT")),
    Entry(SKey("fl_range"), Str("VALIDATOR_FL_RANGE")),
    Entry(SKey("imagetype"), Str("VALIDATOR_IMAGETYPE")),
    Entry(SKey("in"), Str("VALIDATOR_IN")),
    Entry(SKey("in_strict"), Str("VALIDATOR_IN_STRICT")),
    Entry(SKey("int"), Str("VALIDATOR_INT")),
    Entry(SKey("numeric"), Str("VALIDATOR_NUMERIC")),
    Entry(SKey("regex"), Str("VALIDATOR_REGEX")),
    Entry(SKey("required"), Str("VALIDATOR_REQUIRED")),
    Entry(SKey("strlen"), Str("VALIDATOR_STRING_RANGE")),
    Entry(SKey("upload"), Str("VALIDATOR_UPLOAD")),
    Entry(SKey("url"), Str("VALIDATOR_URL"))
  ]

  // ---------------------------------------------------------------------------------
  // Rule normalisation

  /** `is_numeric` applied to an array key. */
  predicate IsNumericKey(php: Php, k: Key)
  {
    k.IKey? || php.numeric(k.s).Some?
  }

  /**
   * The rule one declaration entry contributes, as (name key, params): a numeric key makes
   * the value the rule name with null params, any other key is the name with the value as
   * params. A value that cannot be a key (an array) contributes nothing.
   */
  function Declared(php: Php, e: Entry): Option<Entry>
  {
    if IsNumericKey(php, e.key) then
      match KeyOfValue(e.val)
      case None => None
      case Some(k) => Some(Entry(k, Null))
    else Some(e)
  }

  /** `_normalize_cnfg_arr` on the entries of a declaration. */
  function NormalizeEntries(php: Php, es: seq<Entry>): seq<Entry>
  {
    if es == [] then []
    else
      var acc := NormalizeEntries(php, es[..|es| - 1]);
      match Declared(php, es[|es| - 1])
      case None => acc
      case Some(d) => Put(acc, d.key, d.val)
  }

  /** `_normalize_cnfg_arr`: iterating over a non-array declares nothing. */
  function Normalize(php: Php, def: Value): seq<Entry>
  {
    if def.Arr? then NormalizeEntries(php, def.entries) else []
  }

  /** The rule names a declaration mentions, in order, repetitions included. */
  function DeclaredNames(php: Php, es: seq<Entry>): seq<Key>
  {
    if es == [] then []
    else
      var init := DeclaredNames(php, es[..|es| - 1]);
      match Declared(php, es[|es| - 1])
      case None => init
      case Some(d) => init + [d.key]
  }

  /** The params of the last declaration of rule `k`. */
  function LastParams(php: Php, es: seq<Entry>, k: Key): Option<Value>
  {
    if es == [] then None
    else
      match Declared(php, es[|es| - 1])
      case Some(d) => if d.key == k then Some(d.val) else LastParams(php, es[..|es| - 1], k)
      case None => LastParams(php, es[..|es| - 1], k)
  }

  /** The keys in order of first occurrence. */
  function Dedup(ks: seq<Key>): seq<Key>
  {
    if ks == [] then []
    else
      var d := Dedup(ks[..|ks| - 1]);
      if ks[|ks| - 1] in d then d else d + [ks[|ks| - 1]]
  }

  lemma {:induction false} DedupSpec(ks: seq<Key>)
    ensures forall k :: k in Dedup(ks) <==> k in ks
    ensures forall i, j :: 0 <= i < j < |Dedup(ks)| ==> Dedup(ks)[i] != Dedup(ks)[j]
  {
    if ks != [] {
      DedupSpec(ks[..|ks| - 1]);
      assert ks == ks[..|ks| - 1] + [ks[|ks| - 1]];
    }
  }

  /** Normalised rule names: every declared name once, in order of first occurrence. */
  lemma {:induction false} NormalizeKeys(php: Php, es: seq<Entry>)
    ensures Keys(NormalizeEntries(php, es)) == Dedup(DeclaredNames(php, es))
  {
    if es != [] {
      NormalizeKeys(php, es[..|es| - 1]);
    }
  }

  /** A normalised rule carries the params of its last declaration. */
  lemma {:induction false} NormalizeParams(php: Php, es: seq<Entry>, k: Key)
    ensures Lookup(NormalizeEntries(php, es), k) == LastParams(php, es, k)
  {
    if es != [] {
      var init := es[..|es| - 1];
      NormalizeParams(php, init, k);
      match Declared(php, es[|es| - 1])
      case None =>
      case Some(d) =>
        if d.key != k {
          PutOther(NormalizeEntries(php, init), d.key, d.val, k);
        }
    }
  }

  // ---------------------------------------------------------------------------------
  // Per-field merging

  /** The rule map stored for a field; a missing or non-array entry counts as empty. */
  function FieldRules(vs: seq<Entry>, f: Key): seq<Entry>
  {
    match Lookup(vs, f)
    case Some(Arr(rs)) => rs
    case _ => []
  }

  /** One step of `add_validators`: the field's rule map `array_merge`d with the new rules. */
  function AddFieldRules(php: Php, vs: seq<Entry>, e: Entry): seq<Entry>
  {
    Put(vs, e.key, Arr(ArrayMerge(FieldRules(vs, e.key), Normalize(php, e.val))))
  }

  function AddAllFieldRules(php: Php, vs: seq<Entry>, es: seq<Entry>): seq<Entry>
  {
    if es == [] then vs else AddFieldRules(php, AddAllFieldRules(php, vs, es[..|es| - 1]), es[|es| - 1])
  }

  /** `add_validators`: iterating over a non-array adds nothing. */
  function AddValidatorsTo(php: Php, vs: seq<Entry>, settings: Value): seq<Entry>
  {
    if settings.Arr? then AddAllFieldRules(php, vs, settings.entries) else vs
  }

  /**
   * A rule with a string name, after merging new rules into a field: the new declaration
   * wins; otherwise the field keeps the rule it had (existing rules are never dropped).
   */
  lemma MergeFieldRule(php: Php, vs: seq<Entry>, e: Entry, r: Key)
    requires r.SKey?
    ensures
      var n := Normalize(php, e.val);
      var old_ := FieldRules(vs, e.key);
      Lookup(FieldRules(AddFieldRules(php, vs, e), e.key), r) ==
        if r in Keys(n) then Some(LastValue(n, r))
        else if r in Keys(old_) then Some(LastValue(old_, r))
        else None
  {
    ArrayMergeStringKey(FieldRules(vs, e.key), Normalize(php, e.val), r);
  }

  /** Adding rules to one field leaves every other field's rules as they were. */
  lemma MergeFieldOther(php: Php, vs: seq<Entry>, e: Entry, f: Key)
    requires f != e.key
    ensures FieldRules(AddFieldRules(php, vs, e), f) == FieldRules(vs, f)
  {
    PutOther(vs, e.key, Arr(ArrayMerge(FieldRules(vs, e.key), Normalize(php, e.val))), f);
  }

  // ---------------------------------------------------------------------------------
  // The rule map of one field

  /** The rule name a key stands for when the loop iterates over it. */
  function RuleName(r: Entry): string { KeyString(r.key) }

  /** `_extract_invalidated_fields`: the targets listed under a set `invalidates` key. */
  function Invalidated(def: Value): seq<Value>
  {
    if def.Arr? && IsSet(def.entries, SKey("invalidates")) then
      var t := Lookup(def.entries, SKey("invalidates")).value;
      if t.Arr? then Values(t.entries) else [t]
    else []
  }

  /** The rule map the loop iterates: `invalidates` is unset when it was set. */
  function RuleEntries(def: Value): seq<Entry>
  {
    if !def.Arr? then []
    else if IsSet(def.entries, SKey("invalidates")) then Remove(def.entries, SKey("invalidates"))
    else def.entries
  }

  /** The fields a failure is reported to; the field itself when nothing is listed. */
  function Targets(field: string, def: Value): (ts: seq<Value>)
    ensures |ts| >= 1
  {
    var t := Invalidated(def);
    if t == [] then [Str(field)] else t
  }

  lemma InvalidatesSpec(field: string, def: Value)
    ensures SKey("invalidates") in Keys(RuleEntries(def)) ==>
      def.Arr? && Lookup(def.entries, SKey("invalidates")) == Some(Null)
    ensures !(def.Arr? && IsSet(def.entries, SKey("invalidates"))) ==> Targets(field, def) == [Str(field)]
    ensures def.Arr? && IsSet(def.entries, SKey("invalidates")) ==>
      var t := Lookup(def.entries, SKey("invalidates")).value;
      Targets(field, def) ==
        if !t.Arr? then [t] else if t.entries == [] then [Str(field)] else Values(t.entries)
  {
    if def.Arr? && IsSet(def.entries, SKey("invalidates")) {
      RemoveGone(def.entries, SKey("invalidates"));
    }
  }

  /** Every rule other than `invalidates` is iterated with its own params. */
  lemma RuleEntriesOther(def: Value, k: Key)
    requires def.Arr? && k != SKey("invalidates")
    ensures Lookup(RuleEntries(def), k) == Lookup(def.entries, k)
  {
    if IsSet(def.entries, SKey("invalidates")) {
      RemoveOther(def.entries, SKey("invalidates"), k);
    }
  }

  // ---------------------------------------------------------------------------------
  // Negation and gating

  /** `str_replace('!', '', $name)`. */
  function StripBang(s: string): (r: string)
    ensures '!' !in r && |r| <= |s|
    ensures '!' !in s ==> r == s
    ensures '!' in s ==> |r| < |s|
  {
    if s == [] then []
    else if s[0] == '!' then StripBang(s[1..])
    else (assert s == [s[0]] + s[1..]; [s[0]] + StripBang(s[1..]))
  }

  /** Every character other than `!` is kept, as often as it occurs. */
  lemma {:induction false} StripBangCounts(s: string)
    ensures forall c :: c != '!' ==> multiset(StripBang(s))[c] == multiset(s)[c]
    ensures multiset(StripBang(s))['!'] == 0
    decreases |s|
  {
    if s != [] {
      assert s == [s[0]] + s[1..];
      StripBangCounts(s[1..]);
    }
  }

  /**
   * Stripping works piece by piece, so the characters other than `!` keep their order:
   * the result of `a + b` is the stripped `a` followed by the stripped `b`.
   */
  lemma {:induction false} StripBangConcat(a: string, b: string)
    ensures StripBang(a + b) == StripBang(a) + StripBang(b)
    decreases |a|
  {
    if a == [] {
      assert a + b == b;
    } else {
      assert (a + b)[0] == a[0] && (a + b)[1..] == a[1..] + b;
      StripBangConcat(a[1..], b);
    }
  }

  /** The rule name used for the message: `'!'` and the stripped name when negated. */
  function Display(name: string): string
  {
    if '!' in name then "!" + StripBang(name) else name
  }

  /** Some rule up to and including index `i` is named `required`. */
  predicate RequiredUpTo(rules: seq<Entry>, i: nat)
  {
    exists j :: 0 <= j <= i && j < |rules| && RuleName(rules[j]) == "required"
  }

  /** `$bRequired` after the rule at `i`: set by that rule or by an earlier one. */
  lemma RequiredUpToStep(rules: seq<Entry>, i: nat)
    requires i < |rules|
    ensures RequiredUpTo(rules, i) == ((i > 0 && RequiredUpTo(rules, i - 1)) || RuleName(rules[i]) == "required")
  {
    if RequiredUpTo(rules, i) && RuleName(rules[i]) != "required" {
      var j :| 0 <= j <= i && j < |rules| && RuleName(rules[j]) == "required";
      assert j < i;
    }
  }

  /** The rule at `i` is skipped: empty input and no `required` reached yet. */
  predicate Gated(input: Value, rules: seq<Entry>, i: nat)
  {
    IsEmptyInput(input) && !RequiredUpTo(rules, i)
  }

  // ---------------------------------------------------------------------------------
  // Error composition

  /** The messages recorded for a key. */
  function ErrorList(errs: seq<Entry>, k: Key): seq<Entry>
  {
    match Lookup(errs, k)
    case Some(Arr(ms)) => ms
    case _ => []
  }

  /** `$this->_aErrors[$k][] = $msg`. */
  function AppendError(errs: seq<Entry>, k: Key, msg: string): (r: seq<Entry>)
    ensures ErrorList(r, k) == ErrorList(errs, k) + [Entry(IKey(NextIndex(ErrorList(errs, k))), Str(msg))]
    ensures forall k' :: k' in Keys(errs) ==> k' in Keys(r)
  {
    var ms := ErrorList(errs, k);
    Put(errs, k, Arr(Push(ms, Str(msg))))
  }

  lemma AppendErrorOther(errs: seq<Entry>, k: Key, msg: string, k': Key)
    requires k' != k
    ensures ErrorList(AppendError(errs, k, msg), k') == ErrorList(errs, k')
  {
    PutOther(errs, k, Arr(Push(ErrorList(errs, k), Str(msg))), k');
  }

  /** The message template: `"<field>.<rule>"`, then `"<rule>"`, then the literal key. */
  function MessageTemplate(ctx: Ctx, target: string, rule: string): string
  {
    var specific := KeyOfString(target + "." + rule);
    if IsSet(ctx.messages, specific) then PhpString(ctx.php, Lookup(ctx.messages, specific).value)
    else if IsSet(ctx.messages, KeyOfString(rule)) then PhpString(ctx.php, Lookup(ctx.messages, KeyOfString(rule)).value)
    else target + "." + rule
  }

  /** `sprintf($message, null)`: a message without a `%` is its own result. */
  function Format(php: Php, s: string): string
  {
    if '%' in s then php.sprintfNull(s) else s
  }

  /**
   * The message for a failure: the template, `~{INPUT}~` replaced by a scalar input,
   * references resolved against the data, then formatted. None when resolution diverges.
   */
  function ComposeMessage(ctx: Ctx, target: string, input: Value, rule: string): Option<string>
  {
    var template := MessageTemplate(ctx, target, rule);
    var s := if IsScalar(input) then StrReplace(template, Mask("INPUT"), PhpString(ctx.php, input)) else template;
    match ResolveString(Show(ctx), s, Get(ctx), Fuel)
    case None => None
    case Some(v) => Some(Format(ctx.php, PhpString(ctx.php, v)))
  }

  /** `_insert_error_message` for one target; an array target has no key and stores nothing. */
  function InsertError(ctx: Ctx, target: Value, input: Value, rule: string, errs: seq<Entry>): Option<seq<Entry>>
  {
    match ComposeMessage(ctx, PhpString(ctx.php, target), input, rule)
    case None => None
    case Some(m) =>
      match KeyOfValue(target)
      case None => Some(errs)
      case Some(k) => Some(AppendError(errs, k, m))
  }

  /** The messages for one failure, to the targets from index `k` on. */
  function InsertErrors(ctx: Ctx, targets: seq<Value>, k: nat, input: Value, rule: string, errs: seq<Entry>): Run
    decreases |targets| - k
  {
    if k >= |targets| then Run(errs, Done(true))
    else
      match InsertError(ctx, targets[k], input, rule, errs)
      case None => Run(errs, Raised(RewriteLimit))
      case Some(e) => InsertErrors(ctx, targets, k + 1, input, rule, e)
  }

  /** The number of targets from index `k` on that store under key `key`. */
  function TargetHits(targets: seq<Value>, k: nat, key: Key): nat
    decreases |targets| - k
  {
    if k >= |targets| then 0
    else (if KeyOfValue(targets[k]) == Some(key) then 1 else 0) + TargetHits(targets, k + 1, key)
  }

  /** Each failure appends exactly one message per target to that target's list. */
  lemma {:induction false} InsertErrorsCount(ctx: Ctx, targets: seq<Value>, k: nat, input: Value, rule: string,
                                            errs: seq<Entry>, key: Key)
    requires InsertErrors(ctx, targets, k, input, rule, errs).status.Done?
    ensures |ErrorList(InsertErrors(ctx, targets, k, input, rule, errs).errs, key)| ==
      |ErrorList(errs, key)| + TargetHits(targets, k, key)
    decreases |targets| - k
  {
    if k < |targets| {
      var e := InsertError(ctx, targets[k], input, rule, errs).value;
      InsertErrorsCount(ctx, targets, k + 1, input, rule, e, key);
      match KeyOfValue(targets[k])
      case None =>
      case Some(t) =>
        if t != key {
          var m := ComposeMessage(ctx, PhpString(ctx.php, targets[k]), input, rule).value;
          AppendErrorOther(errs, t, m, key);
        }
    }
  }

  /** Messages only ever add keys to the error table. */
  lemma {:induction false} InsertErrorsKeys(ctx: Ctx, targets: seq<Value>, k: nat, input: Value, rule: string,
                                           errs: seq<Entry>)
    ensures forall f :: f in Keys(errs) ==> f in Keys(InsertErrors(ctx, targets, k, input, rule, errs).errs)
    decreases |targets| - k
  {
    if k < |targets| {
      match InsertError(ctx, targets[k], input, rule, errs)
      case None =>
      case Some(e) => InsertErrorsKeys(ctx, targets, k + 1, input, rule, e);
    }
  }

  /** Whether the messages can be composed does not depend on the error table. */
  lemma {:induction false} InsertErrorsStatus(ctx: Ctx, targets: seq<Value>, k: nat, input: Value, rule: string,
                                             e1: seq<Entry>, e2: seq<Entry>)
    ensures InsertErrors(ctx, targets, k, input, rule, e1).status == InsertErrors(ctx, targets, k, input, rule, e2).status
    decreases |targets| - k
  {
    if k < |targets| {
      match InsertError(ctx, targets[k], input, rule, e1)
      case None =>
      case Some(a) =>
        InsertErrorsStatus(ctx, targets, k + 1, input, rule, a, InsertError(ctx, targets[k], input, rule, e2).value);
    }
  }

  /** A template without markers and `%`, for a non-scalar input, is stored as it is. */
  lemma ComposePlain(ctx: Ctx, target: string, input: Value, rule: string)
    requires !IsScalar(input)
    requires forall a, j :: !Marker(MessageTemplate(ctx, target, rule), a, j)
    requires '%' !in MessageTemplate(ctx, target, rule)
    ensures ComposeMessage(ctx, target, input, rule) == Some(MessageTemplate(ctx, target, rule))
  {
    ResolveNoMarker(Show(ctx), MessageTemplate(ctx, target, rule), Get(ctx), Fuel);
  }

  /**
   * `~{INPUT}~` stands for a scalar input: a template that is just that marker gives the
   * input's string form (formatted), whatever the data holds.
   */
  lemma ComposeInputScalar(ctx: Ctx, target: string, input: Value, rule: string)
    requires IsScalar(input)
    requires MessageTemplate(ctx, target, rule) == Mask("INPUT")
    requires forall a, j :: !Marker(PhpString(ctx.php, input), a, j)
    ensures ComposeMessage(ctx, target, input, rule) == Some(Format(ctx.php, PhpString(ctx.php, input)))
  {
    var x := PhpString(ctx.php, input);
    var m := Mask("INPUT");
    assert m[..|m|] == m && m[|m|..] == [];
    assert StrReplace(m, m, x) == x + StrReplace([], m, x);
    assert StrReplace(m, m, x) == x;
    ResolveNoMarker(Show(ctx), x, Get(ctx), Fuel);
  }

  /**
   * For a null or array input nothing is substituted: the marker `~{INPUT}~` is a
   * reference to the data field `INPUT`, and the message is that field's string form.
   */
  lemma ComposeInputNonScalar(ctx: Ctx, target: string, input: Value, rule: string)
    requires !IsScalar(input)
    requires MessageTemplate(ctx, target, rule) == Mask("INPUT")
    requires AdsGet(ctx.data, "INPUT").Str? ==> forall a, j :: !Marker(AdsGet(ctx.data, "INPUT").s, a, j)
    ensures ComposeMessage(ctx, target, input, rule) ==
      Some(Format(ctx.php, PhpString(ctx.php, AdsGet(ctx.data, "INPUT"))))
  {
    var id := "INPUT";
    assert forall p :: 1 <= p < |id| - 1 ==> !(id[p] == '}' && id[p + 1] == '~');
    ResolveWholeMarker(Show(ctx), id, Get(ctx), Fuel - 1);
    var g := AdsGet(ctx.data, id);
    if g.Str? {
      ResolveNoMarker(Show(ctx), g.s, Get(ctx), Fuel - 1);
    }
  }

  /**
   * Message lookup order: a message set for `field.rule` beats one set for the rule,
   * which beats the literal key `field.rule`.
   */
  lemma MessagePrecedence(ctx: Ctx, target: string, rule: string)
    ensures IsSet(ctx.messages, KeyOfString(target + "." + rule)) ==>
      MessageTemplate(ctx, target, rule) == PhpString(ctx.php, Lookup(ctx.messages, KeyOfString(target + "." + rule)).value)
    ensures !IsSet(ctx.messages, KeyOfString(target + "." + rule)) && IsSet(ctx.messages, KeyOfString(rule)) ==>
      MessageTemplate(ctx, target, rule) == PhpString(ctx.php, Lookup(ctx.messages, KeyOfString(rule)).value)
    ensures !IsSet(ctx.messages, KeyOfString(target + "." + rule)) && !IsSet(ctx.messages, KeyOfString(rule)) ==>
      MessageTemplate(ctx, target, rule) == target + "." + rule
  {
  }

  // ---------------------------------------------------------------------------------
  // The rule loop, dispatch and the array rule (mutually recursive on the input)

  /** `_validate_single_field`. */
  function FieldRun(ctx: Ctx, field: string, input: Value, def: Value, errs: seq<Entry>): Run
    decreases input, 4, 0
  {
    RuleLoop(ctx, field, input, RuleEntries(def), Targets(field, def), 0, true, errs)
  }

  /** The `foreach` over the rules from index `i` on; `valid` is `$bFieldIsValid`. */
  function RuleLoop(ctx: Ctx, field: string, input: Value, rules: seq<Entry>, targets: seq<Value>,
                    i: nat, valid: bool, errs: seq<Entry>): Run
    decreases input, 3, |rules| - i
  {
    if i >= |rules| then Run(errs, Done(valid))
    else if Gated(input, rules, i) then RuleLoop(ctx, field, input, rules, targets, i + 1, valid, errs)
    else
      var r := Evaluate(ctx, field, input, rules[i], errs);
      if r.status.Raised? then r
      else if r.status.valid then RuleLoop(ctx, field, input, rules, targets, i + 1, valid, r.errs)
      else
        var ins := InsertErrors(ctx, targets, 0, input, Display(RuleName(rules[i])), r.errs);
        if ins.status.Raised? then ins
        else if ctx.quick then Run(ins.errs, Done(false))
        else RuleLoop(ctx, field, input, rules, targets, i + 1, false, ins.errs)
  }

  /** One rule: dispatched under its name without `!`, the verdict inverted once if negated. */
  function Evaluate(ctx: Ctx, field: string, input: Value, rule: Entry, errs: seq<Entry>): Run
    decreases input, 2, 1
  {
    var name := RuleName(rule);
    var r := Execute(ctx, field, StripBang(name), input, rule.val, errs);
    if '!' in name && r.status.Done? then Run(r.errs, Done(!r.status.valid)) else r
  }

  /**
   * `_execute_validator`: the params are resolved against the data, then a built-in
   * validator (method names ignore ASCII case) is preferred over a custom one.
   */
  function Execute(ctx: Ctx, field: string, name: string, input: Value, params: Value, errs: seq<Entry>): Run
    decreases input, 2, 0
  {
    match Resolve(Show(ctx), params, Get(ctx), Fuel)
    case None => Run(errs, Raised(RewriteLimit))
    case Some(p) =>
      var lname := Lower(name);
      if lname == "array" then ArrayRule(ctx, field, input, p, errs)
      else if lname in ctx.builtins then Run(errs, Done(ctx.builtin(lname, input, p, field, ctx.data)))
      else if name in ctx.custom && ctx.custom[name].Callable? then
        Run(errs, Done(ctx.custom[name].f(input, p, field, ctx.data)))
      else Run(errs, Raised(UnknownValidator(name)))
  }

  /** `__validator__array`: the params are the rule map of every element. */
  function ArrayRule(ctx: Ctx, field: string, input: Value, def: Value, errs: seq<Entry>): Run
    decreases input, 1, 0
  {
    if input.Null? then Run(errs, Done(true))
    else if !input.Arr? then Run(errs, Done(false))
    else ElementLoop(ctx, field, input, def, 0, true, errs)
  }

  /** The element loop of the `array` rule from index `j` on; `result` is `$bResult`. */
  function ElementLoop(ctx: Ctx, field: string, input: Value, def: Value, j: nat, result: bool,
                       errs: seq<Entry>): Run
    requires input.Arr? && j <= |input.entries|
    decreases input, 0, |input.entries| - j
  {
    if j == |input.entries| then Run(errs, Done(result))
    else
      assert input.entries[j] in input.entries;
      var r := FieldRun(ctx, field, input.entries[j].val, def, errs);
      if r.status.Raised? then r else ElementLoop(ctx, field, input, def, j + 1, result && r.status.valid, r.errs)
  }

  /** `_validate`: every field with its rules, in order, on a cleared table from `errs`. */
  function ValidateFrom(ctx: Ctx, vs: seq<Entry>, i: nat, errs: seq<Entry>): Run
    decreases |vs| - i
  {
    if i >= |vs| then Run(errs, Done(true))
    else
      var f := KeyString(vs[i].key);
      var r := FieldRun(ctx, f, AdsGet(ctx.data, f), vs[i].val, errs);
      if r.status.Raised? then r else ValidateFrom(ctx, vs, i + 1, r.errs)
  }

  /** One step of `ValidateFrom`, for the loop that computes it. */
  lemma ValidateFromStep(ctx: Ctx, vs: seq<Entry>, i: nat, errs: seq<Entry>, r: Run)
    requires i < |vs| && r == FieldRun(ctx, KeyString(vs[i].key), AdsGet(ctx.data, KeyString(vs[i].key)), vs[i].val, errs)
    ensures ValidateFrom(ctx, vs, i, errs) == if r.status.Raised? then r else ValidateFrom(ctx, vs, i + 1, r.errs)
  {
  }
}
