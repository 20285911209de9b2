/**
 * Properties of the validation engine: verdicts do not depend on the error table, the
 * outcome of a field is the conjunction of its evaluated rules, quick mode evaluates
 * nothing after a failure, negation, gating, dispatch and the `array` rule.
 */
module EngineProps {
  import opened PhpValues
  import opened DotSyntax
  import opened References
  import opened Rules
  import opened Engine

  /** The verdict of one rule, which (see `FieldRunFacts`) no error table influences. */
  function RuleStatus(ctx: Ctx, field: string, input: Value, rule: Entry): Status
  {
    Evaluate(ctx, field, input, rule, []).status
  }

  /** The outcome of a field run, which no error table influences. */
  function FieldStatus(ctx: Ctx, field: string, input: Value, def: Value): Status
  {
    FieldRun(ctx, field, input, def, []).status
  }

  // ---------------------------------------------------------------------------------
  // The error table is written, never read: outcomes are independent of it, and keys
  // once present stay present.

  lemma {:induction false} FieldRunFacts(ctx: Ctx, field: string, input: Value, def: Value, e1: seq<Entry>, e2: seq<Entry>)
    ensures FieldRun(ctx, field, input, def, e1).status == FieldRun(ctx, field, input, def, e2).status
    ensures forall f :: f in Keys(e1) ==> f in Keys(FieldRun(ctx, field, input, def, e1).errs)
    decreases input, 4, 0
  {
    RuleLoopFacts(ctx, field, input, RuleEntries(def), Targets(field, def), 0, true, e1, e2);
  }

  lemma {:induction false} RuleLoopFacts(ctx: Ctx, field: string, input: Value, rules: seq<Entry>, targets: seq<Value>,
                                        i: nat, valid: bool, e1: seq<Entry>, e2: seq<Entry>)
    ensures RuleLoop(ctx, field, input, rules, targets, i, valid, e1).status ==
      RuleLoop(ctx, field, input, rules, targets, i, valid, e2).status
    ensures forall f :: f in Keys(e1) ==> f in Keys(RuleLoop(ctx, field, input, rules, targets, i, valid, e1).errs)
    decreases input, 3, |rules| - i
  {
    if i < |rules| {
      if Gated(input, rules, i) {
        RuleLoopFacts(ctx, field, input, rules, targets, i + 1, valid, e1, e2);
      } else {
        EvaluateFacts(ctx, field, input, rules[i], e1, e2);
        var r1 := Evaluate(ctx, field, input, rules[i], e1);
        var r2 := Evaluate(ctx, field, input, rules[i], e2);
        if r1.status == Done(true) {
          assert RuleLoop(ctx, field, input, rules, targets, i, valid, e1) ==
            RuleLoop(ctx, field, input, rules, targets, i + 1, valid, r1.errs);
          assert RuleLoop(ctx, field, input, rules, targets, i, valid, e2) ==
            RuleLoop(ctx, field, input, rules, targets, i + 1, valid, r2.errs);
          RuleLoopFacts(ctx, field, input, rules, targets, i + 1, valid, r1.errs, r2.errs);
        } else if r1.status == Done(false) {
          var d := Display(RuleName(rules[i]));
          InsertErrorsStatus(ctx, targets, 0, input, d, r1.errs, r2.errs);
          InsertErrorsKeys(ctx, targets, 0, input, d, r1.errs);
          var n1 := InsertErrors(ctx, targets, 0, input, d, r1.errs);
          var n2 := InsertErrors(ctx, targets, 0, input, d, r2.errs);
          if n1.status.Done? && !ctx.quick {
            RuleLoopFacts(ctx, field, input, rules, targets, i + 1, false, n1.errs, n2.errs);
          }
        }
      }
    }
  }

  lemma {:induction false} EvaluateFacts(ctx: Ctx, field: string, input: Value, rule: Entry, e1: seq<Entry>, e2: seq<Entry>)
    ensures Evaluate(ctx, field, input, rule, e1).status == Evaluate(ctx, field, input, rule, e2).status
    ensures forall f :: f in Keys(e1) ==> f in Keys(Evaluate(ctx, field, input, rule, e1).errs)
    decreases input, 2, 1
  {
    ExecuteFacts(ctx, field, StripBang(RuleName(rule)), input, rule.val, e1, e2);
  }

  lemma {:induction false} ExecuteFacts(ctx: Ctx, field: string, name: string, input: Value, params: Value,
                                       e1: seq<Entry>, e2: seq<Entry>)
    ensures Execute(ctx, field, name, input, params, e1).status == Execute(ctx, field, name, input, params, e2).status
    ensures forall f :: f in Keys(e1) ==> f in Keys(Execute(ctx, field, name, input, params, e1).errs)
    decreases input, 2, 0
  {
    match Resolve(Show(ctx), params, Get(ctx), Fuel)
    case None =>
    case Some(p) =>
      if Lower(name) == "array" {
        ArrayRuleFacts(ctx, field, input, p, e1, e2);
      }
  }

  lemma {:induction false} ArrayRuleFacts(ctx: Ctx, field: string, input: Value, def: Value, e1: seq<Entry>, e2: seq<Entry>)
    ensures ArrayRule(ctx, field, input, def, e1).status == ArrayRule(ctx, field, input, def, e2).status
    ensures forall f :: f in Keys(e1) ==> f in Keys(ArrayRule(ctx, field, input, def, e1).errs)
    decreases input, 1, 0
  {
    if input.Arr? {
      ElementLoopFacts(ctx, field, input, def, 0, true, e1, e2);
    }
  }

  lemma {:induction false} ElementLoopFacts(ctx: Ctx, field: string, input: Value, def: Value, j: nat, result: bool,
                                           e1: seq<Entry>, e2: seq<Entry>)
    requires input.Arr? && j <= |input.entries|
    ensures ElementLoop(ctx, field, input, def, j, result, e1).status ==
      ElementLoop(ctx, field, input, def, j, result, e2).status
    ensures forall f :: f in Keys(e1) ==> f in Keys(ElementLoop(ctx, field, input, def, j, result, e1).errs)
    decreases input, 0, |input.entries| - j
  {
    if j < |input.entries| {
      assert input.entries[j] in input.entries;
      var x := input.entries[j].val;
      FieldRunFacts(ctx, field, x, def, e1, e2);
      var r1 := FieldRun(ctx, field, x, def, e1);
      var r2 := FieldRun(ctx, field, x, def, e2);
      ElementLoopUnfold(ctx, field, input, def, j, result, e1);
      ElementLoopUnfold(ctx, field, input, def, j, result, e2);
      if r1.status.Done? {
        var v := result && r1.status.valid;
        assert ElementLoop(ctx, field, input, def, j, result, e1) == ElementLoop(ctx, field, input, def, j + 1, v, r1.errs);
        assert ElementLoop(ctx, field, input, def, j, result, e2) == ElementLoop(ctx, field, input, def, j + 1, v, r2.errs);
        ElementLoopFacts(ctx, field, input, def, j + 1, v, r1.errs, r2.errs);
      } else {
        assert ElementLoop(ctx, field, input, def, j, result, e1) == r1;
        assert ElementLoop(ctx, field, input, def, j, result, e2) == r2;
      }
    }
  }

  /** One round of the element loop: the element's run, then the rest of the loop. */
  lemma ElementLoopUnfold(ctx: Ctx, field: string, input: Value, def: Value, j: nat, result: bool, errs: seq<Entry>)
    requires input.Arr? && j < |input.entries|
    ensures var r := FieldRun(ctx, field, input.entries[j].val, def, errs);
      ElementLoop(ctx, field, input, def, j, result, errs) ==
        if r.status.Raised? then r else ElementLoop(ctx, field, input, def, j + 1, result && r.status.valid, r.errs)
  {
  }

  // ---------------------------------------------------------------------------------
  // Field outcome

  /**
   * One round of the rule loop that completes: a gated or passing rule hands on the
   * same verdict, a failing one makes it false and ends the loop in quick mode.
   */
  lemma RuleLoopNext(ctx: Ctx, field: string, input: Value, rules: seq<Entry>, targets: seq<Value>,
                     i: nat, valid: bool, errs: seq<Entry>) returns (valid': bool, errs': seq<Entry>)
    requires i < |rules|
    requires RuleLoop(ctx, field, input, rules, targets, i, valid, errs).status.Done?
    ensures !Gated(input, rules, i) ==> RuleStatus(ctx, field, input, rules[i]).Done?
    ensures valid' == (valid && (Gated(input, rules, i) || RuleStatus(ctx, field, input, rules[i]) != Done(false)))
    ensures !Gated(input, rules, i) && RuleStatus(ctx, field, input, rules[i]) == Done(false) && ctx.quick ==>
      RuleLoop(ctx, field, input, rules, targets, i, valid, errs).status == Done(false)
    ensures !(!Gated(input, rules, i) && RuleStatus(ctx, field, input, rules[i]) == Done(false) && ctx.quick) ==>
      RuleLoop(ctx, field, input, rules, targets, i, valid, errs) ==
      RuleLoop(ctx, field, input, rules, targets, i + 1, valid', errs')
  {
    if Gated(input, rules, i) {
      valid', errs' := valid, errs;
    } else {
      EvaluateFacts(ctx, field, input, rules[i], errs, []);
      var r := Evaluate(ctx, field, input, rules[i], errs);
      if r.status == Done(true) {
        valid', errs' := valid, r.errs;
      } else {
        var ins := InsertErrors(ctx, targets, 0, input, Display(RuleName(rules[i])), r.errs);
        valid', errs' := false, ins.errs;
      }
    }
  }

  /** No rule from the `i`-th on that is evaluated fails. */
  predicate NoneFailFrom(ctx: Ctx, field: string, input: Value, rules: seq<Entry>, i: nat)
    decreases |rules| - i
  {
    i >= |rules| ||
    ((Gated(input, rules, i) || RuleStatus(ctx, field, input, rules[i]) != Done(false))
     && NoneFailFrom(ctx, field, input, rules, i + 1))
  }

  lemma {:induction false} NoneFailFromAll(ctx: Ctx, field: string, input: Value, rules: seq<Entry>, i: nat)
    ensures NoneFailFrom(ctx, field, input, rules, i) <==>
      forall j :: i <= j < |rules| && !Gated(input, rules, j) ==> RuleStatus(ctx, field, input, rules[j]) != Done(false)
    decreases |rules| - i
  {
    if i < |rules| {
      var here := Gated(input, rules, i) || RuleStatus(ctx, field, input, rules[i]) != Done(false);
      assert NoneFailFrom(ctx, field, input, rules, i) == (here && NoneFailFrom(ctx, field, input, rules, i + 1));
      NoneFailFromAll(ctx, field, input, rules, i + 1);
    }
  }

  lemma {:induction false} RuleLoopOutcome(ctx: Ctx, field: string, input: Value, rules: seq<Entry>, targets: seq<Value>,
                                          i: nat, valid: bool, errs: seq<Entry>)
    requires RuleLoop(ctx, field, input, rules, targets, i, valid, errs).status.Done?
    ensures RuleLoop(ctx, field, input, rules, targets, i, valid, errs).status.valid <==>
      valid && NoneFailFrom(ctx, field, input, rules, i)
    decreases |rules| - i
  {
    if i < |rules| {
      var valid', errs' := RuleLoopNext(ctx, field, input, rules, targets, i, valid, errs);
      if !(!Gated(input, rules, i) && RuleStatus(ctx, field, input, rules[i]) == Done(false) && ctx.quick) {
        RuleLoopOutcome(ctx, field, input, rules, targets, i + 1, valid', errs');
      }
    }
  }

  /** A field that completes is valid exactly when none of its evaluated rules failed. */
  lemma FieldOutcome(ctx: Ctx, field: string, input: Value, def: Value, errs: seq<Entry>)
    requires FieldRun(ctx, field, input, def, errs).status.Done?
    ensures FieldRun(ctx, field, input, def, errs).status.valid <==>
      forall j :: 0 <= j < |RuleEntries(def)| && !Gated(input, RuleEntries(def), j) ==>
        RuleStatus(ctx, field, input, RuleEntries(def)[j]) != Done(false)
  {
    RuleLoopOutcome(ctx, field, input, RuleEntries(def), Targets(field, def), 0, true, errs);
    NoneFailFromAll(ctx, field, input, RuleEntries(def), 0);
  }

  // ---------------------------------------------------------------------------------
  // Quick mode

  lemma RequiredUpToPrefix(rules: seq<Entry>, n: nat, k: nat)
    requires k < n <= |rules|
    ensures RequiredUpTo(rules[..n], k) <==> RequiredUpTo(rules, k)
  {
    assert forall j :: 0 <= j <= k ==> rules[..n][j] == rules[j];
    if RequiredUpTo(rules, k) {
      var j :| 0 <= j <= k && j < |rules| && RuleName(rules[j]) == "required";
      assert RuleName(rules[..n][j]) == "required";
    }
  }

  /** A prefix of the rule list holds the same rule at `k`, gated the same way. */
  lemma PrefixAgrees(input: Value, rules: seq<Entry>, n: nat, k: nat)
    requires k < n <= |rules|
    ensures rules[..n][k] == rules[k]
    ensures Gated(input, rules[..n], k) == Gated(input, rules, k)
  {
    RequiredUpToPrefix(rules, n, k);
  }

  /**
   * One round of the rule loop on two rule lists that agree at `k`: either both loops
   * stop there with the same run, or both go on from `k + 1` with the same state.
   */
  lemma RuleLoopStep(ctx: Ctx, field: string, input: Value, rules: seq<Entry>, rules': seq<Entry>,
                     targets: seq<Value>, k: nat, valid: bool, errs: seq<Entry>)
    returns (stop: bool, valid': bool, errs': seq<Entry>)
    requires k < |rules| && k < |rules'| && rules[k] == rules'[k]
    requires Gated(input, rules, k) == Gated(input, rules', k)
    ensures !Gated(input, rules, k) && RuleStatus(ctx, field, input, rules[k]) == Done(false) && ctx.quick ==> stop
    ensures stop ==>
      RuleLoop(ctx, field, input, rules, targets, k, valid, errs) ==
      RuleLoop(ctx, field, input, rules', targets, k, valid, errs)
    ensures !stop ==>
      RuleLoop(ctx, field, input, rules, targets, k, valid, errs) ==
      RuleLoop(ctx, field, input, rules, targets, k + 1, valid', errs')
    ensures !stop ==>
      RuleLoop(ctx, field, input, rules', targets, k, valid, errs) ==
      RuleLoop(ctx, field, input, rules', targets, k + 1, valid', errs')
  {
    if Gated(input, rules, k) {
      stop, valid', errs' := false, valid, errs;
    } else {
      EvaluateFacts(ctx, field, input, rules[k], errs, []);
      var r := Evaluate(ctx, field, input, rules[k], errs);
      if r.status == Done(true) {
        stop, valid', errs' := false, valid, r.errs;
      } else if r.status == Done(false) {
        var ins := InsertErrors(ctx, targets, 0, input, Display(RuleName(rules[k])), r.errs);
        stop, valid', errs' := ins.status.Raised? || ctx.quick, false, ins.errs;
      } else {
        stop, valid', errs' := true, valid, errs;
      }
    }
  }

  lemma {:induction false} QuickPrefix(ctx: Ctx, field: string, input: Value, rules: seq<Entry>, targets: seq<Value>,
                                      i: nat, k: nat, valid: bool, errs: seq<Entry>)
    requires ctx.quick && k <= i < |rules| && !Gated(input, rules, i)
    requires RuleStatus(ctx, field, input, rules[i]) == Done(false)
    ensures RuleLoop(ctx, field, input, rules, targets, k, valid, errs) ==
      RuleLoop(ctx, field, input, rules[..i + 1], targets, k, valid, errs)
    decreases i - k
  {
    PrefixAgrees(input, rules, i + 1, k);
    var stop, valid', errs' := RuleLoopStep(ctx, field, input, rules, rules[..i + 1], targets, k, valid, errs);
    if !stop {
      QuickPrefix(ctx, field, input, rules, targets, i, k + 1, valid', errs');
    }
  }

  /**
   * In quick mode, a rule that is evaluated and fails ends the field: the run is the same
   * as the run over the rules up to and including it, so no later rule is evaluated.
   */
  lemma QuickStopsAtFailure(ctx: Ctx, field: string, input: Value, def: Value, i: nat, errs: seq<Entry>)
    requires ctx.quick && i < |RuleEntries(def)| && !Gated(input, RuleEntries(def), i)
    requires RuleStatus(ctx, field, input, RuleEntries(def)[i]) == Done(false)
    ensures FieldRun(ctx, field, input, def, errs) ==
      RuleLoop(ctx, field, input, RuleEntries(def)[..i + 1], Targets(field, def), 0, true, errs)
  {
    QuickPrefix(ctx, field, input, RuleEntries(def), Targets(field, def), i, 0, true, errs);
  }

  // ---------------------------------------------------------------------------------
  // Gating

  lemma {:induction false} EmptyOptionalLoop(ctx: Ctx, field: string, input: Value, rules: seq<Entry>, targets: seq<Value>,
                                            i: nat, valid: bool, errs: seq<Entry>)
    requires IsEmptyInput(input)
    requires forall j :: 0 <= j < |rules| ==> RuleName(rules[j]) != "required"
    ensures RuleLoop(ctx, field, input, rules, targets, i, valid, errs) == Run(errs, Done(valid))
    decreases |rules| - i
  {
    if i < |rules| {
      EmptyOptionalLoop(ctx, field, input, rules, targets, i + 1, valid, errs);
    }
  }

  /** An empty input (`''` or `[]`) without a `required` rule passes without evaluating any rule. */
  lemma EmptyOptionalField(ctx: Ctx, field: string, input: Value, def: Value, errs: seq<Entry>)
    requires IsEmptyInput(input)
    requires forall j :: 0 <= j < |RuleEntries(def)| ==> RuleName(RuleEntries(def)[j]) != "required"
    ensures FieldRun(ctx, field, input, def, errs) == Run(errs, Done(true))
  {
    EmptyOptionalLoop(ctx, field, input, RuleEntries(def), Targets(field, def), 0, true, errs);
  }

  /** From the first `required` rule on, every rule is evaluated, whatever the input. */
  lemma RequiredUngates(input: Value, rules: seq<Entry>, r: nat, i: nat)
    requires r <= i < |rules| && RuleName(rules[r]) == "required"
    ensures !Gated(input, rules, i)
  {
  }

  // ---------------------------------------------------------------------------------
  // Negation

  /**
   * A rule whose name holds any number of `!` is dispatched under the name without them
   * and its verdict is inverted once; its messages use `'!'` and the stripped name.
   */
  lemma NegationOnce(ctx: Ctx, field: string, input: Value, name: string, params: Value, errs: seq<Entry>)
    requires '!' in name
    ensures
      var plain := Evaluate(ctx, field, input, Entry(KeyOfString(StripBang(name)), params), errs);
      Evaluate(ctx, field, input, Entry(KeyOfString(name), params), errs) ==
        (if plain.status.Done? then Run(plain.errs, Done(!plain.status.valid)) else plain)
    ensures Display(name) == "!" + StripBang(name)
  {
    KeyStringRoundTrip(name);
    KeyStringRoundTrip(StripBang(name));
  }

  /** `!!eq`, `e!q` and `!eq` are the same rule. */
  lemma NegationCollapses(ctx: Ctx, field: string, input: Value, name: string, params: Value, errs: seq<Entry>)
    requires '!' in name
    ensures Evaluate(ctx, field, input, Entry(KeyOfString(name), params), errs) ==
      Evaluate(ctx, field, input, Entry(KeyOfString("!" + StripBang(name)), params), errs)
    ensures Display(name) == Display("!" + StripBang(name))
  {
    var n2 := "!" + StripBang(name);
    assert n2[1..] == StripBang(name);
    assert StripBang(n2) == StripBang(name);
    KeyStringRoundTrip(name);
    KeyStringRoundTrip(n2);
  }

  // ---------------------------------------------------------------------------------
  // Dispatch

  /** A built-in validator is used even when a custom validator has the same name. */
  lemma BuiltinPrecedence(ctx: Ctx, field: string, name: string, input: Value, params: Value, errs: seq<Entry>, p: Value)
    requires Resolve(Show(ctx), params, Get(ctx), Fuel) == Some(p)
    requires Lower(name) in ctx.builtins && Lower(name) != "array"
    ensures Execute(ctx, field, name, input, params, errs) ==
      Run(errs, Done(ctx.builtin(Lower(name), input, p, field, ctx.data)))
  {
  }

  /** A custom validator decides only names that are not built in. */
  lemma CustomDispatch(ctx: Ctx, field: string, name: string, input: Value, params: Value, errs: seq<Entry>, p: Value)
    requires Resolve(Show(ctx), params, Get(ctx), Fuel) == Some(p)
    requires Lower(name) != "array" && Lower(name) !in ctx.builtins && name in ctx.custom && ctx.custom[name].Callable?
    ensures Execute(ctx, field, name, input, params, errs) == Run(errs, Done(ctx.custom[name].f(input, p, field, ctx.data)))
  {
  }

  /** A name that is neither built in nor a callable custom validator raises. */
  lemma UnknownRaises(ctx: Ctx, field: string, name: string, input: Value, params: Value, errs: seq<Entry>)
    requires Resolve(Show(ctx), params, Get(ctx), Fuel).Some?
    requires Lower(name) != "array" && Lower(name) !in ctx.builtins && !(name in ctx.custom && ctx.custom[name].Callable?)
    ensures Execute(ctx, field, name, input, params, errs) == Run(errs, Raised(UnknownValidator(name)))
  {
  }

  // ---------------------------------------------------------------------------------
  // The array rule

  lemma ArrayRuleNonArray(ctx: Ctx, field: string, input: Value, def: Value, errs: seq<Entry>)
    ensures input.Null? ==> ArrayRule(ctx, field, input, def, errs) == Run(errs, Done(true))
    ensures !input.Null? && !input.Arr? ==> ArrayRule(ctx, field, input, def, errs) == Run(errs, Done(false))
  {
  }

  /** One step of the element loop, the element's outcome taken independently of the table. */
  lemma ElementLoopStep(ctx: Ctx, field: string, input: Value, def: Value, j: nat, result: bool, errs: seq<Entry>)
    requires input.Arr? && j < |input.entries|
    ensures
      var r := FieldRun(ctx, field, input.entries[j].val, def, errs);
      r.status == FieldStatus(ctx, field, input.entries[j].val, def) &&
      ElementLoop(ctx, field, input, def, j, result, errs) ==
        if r.status.Raised? then r
        else ElementLoop(ctx, field, input, def, j + 1, result && r.status.valid, r.errs)
  {
    FieldRunFacts(ctx, field, input.entries[j].val, def, errs, []);
  }

  lemma {:induction false} ElementLoopAllDone(ctx: Ctx, field: string, input: Value, def: Value, j: nat, result: bool,
                                             errs: seq<Entry>)
    requires input.Arr? && j <= |input.entries|
    requires ElementLoop(ctx, field, input, def, j, result, errs).status.Done?
    ensures forall m :: j <= m < |input.entries| ==> FieldStatus(ctx, field, input.entries[m].val, def).Done?
    decreases |input.entries| - j
  {
    if j < |input.entries| {
      ElementLoopStep(ctx, field, input, def, j, result, errs);
      var r := FieldRun(ctx, field, input.entries[j].val, def, errs);
      assert r.status.Done?;
      assert FieldStatus(ctx, field, input.entries[j].val, def).Done?;
      ElementLoopAllDone(ctx, field, input, def, j + 1, result && r.status.valid, r.errs);
    }
  }

  lemma {:induction false} ElementLoopOutcome(ctx: Ctx, field: string, input: Value, def: Value, j: nat, result: bool,
                                             errs: seq<Entry>)
    requires input.Arr? && j <= |input.entries|
    requires ElementLoop(ctx, field, input, def, j, result, errs).status.Done?
    ensures ElementLoop(ctx, field, input, def, j, result, errs).status.valid <==>
      result && forall m :: j <= m < |input.entries| ==> FieldStatus(ctx, field, input.entries[m].val, def) == Done(true)
    decreases |input.entries| - j
  {
    if j < |input.entries| {
      ElementLoopStep(ctx, field, input, def, j, result, errs);
      var r := FieldRun(ctx, field, input.entries[j].val, def, errs);
      var ok := r.status.Done? && r.status.valid;
      ElementLoopOutcome(ctx, field, input, def, j + 1, result && ok, r.errs);
    }
  }

  /**
   * On an array the rule runs every element (quick mode does not stop it) with the rule's
   * params as the element's rule map, and holds exactly when every element passes.
   */
  lemma ArrayRuleOutcome(ctx: Ctx, field: string, es: seq<Entry>, def: Value, errs: seq<Entry>)
    requires ArrayRule(ctx, field, Arr(es), def, errs).status.Done?
    ensures forall m :: 0 <= m < |es| ==> FieldStatus(ctx, field, es[m].val, def).Done?
    ensures ArrayRule(ctx, field, Arr(es), def, errs).status.valid <==>
      forall m :: 0 <= m < |es| ==> FieldStatus(ctx, field, es[m].val, def) == Done(true)
  {
    ElementLoopAllDone(ctx, field, Arr(es), def, 0, true, errs);
    ElementLoopOutcome(ctx, field, Arr(es), def, 0, true, errs);
  }

  // ---------------------------------------------------------------------------------
  // Whole validation

  /** A validation run never removes a key from the error table it is given. */
  lemma {:induction false} ValidateKeys(ctx: Ctx, vs: seq<Entry>, i: nat, errs: seq<Entry>)
    ensures forall f :: f in Keys(errs) ==> f in Keys(ValidateFrom(ctx, vs, i, errs).errs)
    decreases |vs| - i
  {
    if i < |vs| {
      var f := KeyString(vs[i].key);
      FieldRunFacts(ctx, f, AdsGet(ctx.data, f), vs[i].val, errs, errs);
      var r := FieldRun(ctx, f, AdsGet(ctx.data, f), vs[i].val, errs);
      if r.status.Done? {
        ValidateKeys(ctx, vs, i + 1, r.errs);
      }
    }
  }
}
