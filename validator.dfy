/**
 * The `Validator` object (`BaseValidator` with the built-in rules of `Validator`): its
 * configuration and the error table are fields updated in place, and every method is
 * proved to compute what the functions of `Engine` describe.
 */
module Validation {
  import opened PhpValues
  import opened DotSyntax
  import opened References
  import opened Rules
  import opened Engine

  class Validator {
    /** The PHP runtime the validator runs on. */
    const php: Php
    var isValidated: bool
    var quick: bool
    /** Field id to normalised rule map (`Arr`). */
    var vldtrs: seq<Entry>
    /** Field id to the list of messages recorded for it (`Arr` of `Str`). */
    var errors: seq<Entry>
    /** The message pool. */
    var messages: seq<Entry>
    var custom: map<string, Callback>
    var data: Value

    /** Everything a validation run reads besides the error table. */
    function Context(): Ctx
      reads this`data, this`quick, this`messages, this`custom
    {
      Ctx(php, BuiltinNames, Verdicts(php), data, quick, messages, custom)
    }

    /** The initial values of the properties. */
    constructor(php: Php)
      ensures this.php == php
      ensures !isValidated && !quick && vldtrs == [] && errors == [] && custom == map[] && data == Arr([])
      ensures messages == DefaultMessages
    {
      this.php := php;
      isValidated := false;
      quick := false;
      vldtrs := [];
      errors := [];
      messages := DefaultMessages;
      custom := map[];
      data := Arr([]);
    }

    method SetQuick(b: bool)
      modifies this`quick
      ensures quick == b
    {
      quick := b;
    }

    /** `_normalize_cnfg_arr`. */
    method NormalizeCnfgArr(def: Value) returns (r: seq<Entry>)
      ensures r == Normalize(php, def)
    {
      r := [];
      if def.Arr? {
        var es := def.entries;
        var i := 0;
        while i < |es|
          invariant 0 <= i <= |es|
          invariant r == NormalizeEntries(php, es[..i])
        {
          assert es[..i + 1][..i] == es[..i];
          var e := es[i];
          ghost var d := Declared(php, e);
          ghost var next := NormalizeEntries(php, es[..i + 1]);
          assert next == if d.None? then r else Put(r, d.value.key, d.value.val);
          if IsNumericKey(php, e.key) {
            var name := KeyOfValue(e.val);
            if name.Some? {
              r := Put(r, name.value, Null);
            }
          } else {
            r := Put(r, e.key, e.val);
          }
          assert r == next;
          i := i + 1;
        }
        assert es[..|es|] == es;
      }
    }

    /** `add_validators`: each field's rule map is merged with the normalised new rules. */
    method AddValidators(settings: Value)
      modifies this`vldtrs
      ensures vldtrs == AddValidatorsTo(php, old(vldtrs), settings)
    {
      if settings.Arr? {
        var es := settings.entries;
        var i := 0;
        while i < |es|
          invariant 0 <= i <= |es|
          invariant vldtrs == AddAllFieldRules(php, old(vldtrs), es[..i])
        {
          assert es[..i + 1][..i] == es[..i];
          var rules := NormalizeCnfgArr(es[i].val);
          vldtrs := Put(vldtrs, es[i].key, Arr(ArrayMerge(FieldRules(vldtrs, es[i].key), rules)));
          i := i + 1;
        }
        assert es[..|es|] == es;
      }
    }

    method GetErrors() returns (r: seq<Entry>)
      ensures r == errors
    {
      r := errors;
    }

    method AddErrorMessages(m: seq<Entry>)
      modifies this`messages
      ensures messages == ArrayMerge(old(messages), m)
    {
      messages := ArrayMerge(messages, m);
    }

    method AddCustomValidator(name: string, f: Callback)
      modifies this`custom
      ensures custom == old(custom)[name := f]
    {
      custom := custom[name := f];
    }

    method SetData(d: Value)
      modifies this`isValidated, this`data
      ensures !isValidated && data == d
    {
      isValidated := false;
      data := d;
    }

    method GetData() returns (r: Value)
      ensures r == data
    {
      r := data;
    }

    /** `_extract_invalidated_fields`: the targets, and the rule map without `invalidates`. */
    method ExtractInvalidatedFields(def: Value) returns (fields: seq<Value>, rules: seq<Entry>)
      ensures fields == Invalidated(def) && rules == RuleEntries(def)
    {
      fields := [];
      rules := if def.Arr? then def.entries else [];
      if def.Arr? && IsSet(def.entries, SKey("invalidates")) {
        var t := Lookup(def.entries, SKey("invalidates")).value;
        fields := if t.Arr? then Values(t.entries) else [t];
        rules := Remove(rules, SKey("invalidates"));
      }
    }

    /** `_insert_error_message` for one target; false when reference resolution diverges. */
    method InsertErrorMessage(target: Value, input: Value, rule: string) returns (ok: bool)
      modifies this`errors
      ensures ok ==> InsertError(Context(), target, input, rule, old(errors)) == Some(errors)
      ensures !ok ==> InsertError(Context(), target, input, rule, old(errors)).None? && errors == old(errors)
    {
      var ctx := Context();
      var field := PhpString(php, target);
      var message := MessageTemplate(ctx, field, rule);
      if IsScalar(input) {
        message := StrReplace(message, Mask("INPUT"), PhpString(php, input));
      }
      var resolved := DecipherString(Show(ctx), message, Get(ctx));
      if resolved.None? {
        return false;
      }
      var text := Format(php, PhpString(php, resolved.value));
      var key := KeyOfValue(target);
      if key.Some? {
        errors := AppendError(errors, key.value, text);
      }
      return true;
    }

    /** The messages for one failure, to every target in turn; false when one diverges. */
    method ReportFailure(targets: seq<Value>, input: Value, rule: string) returns (ok: bool)
      modifies this`errors
      ensures Run(errors, if ok then Done(true) else Raised(RewriteLimit)) ==
        InsertErrors(Context(), targets, 0, input, rule, old(errors))
    {
      ghost var ctx := Context();
      var k := 0;
      while k < |targets|
        invariant 0 <= k <= |targets| && Context() == ctx
        invariant InsertErrors(ctx, targets, k, input, rule, errors) ==
          InsertErrors(ctx, targets, 0, input, rule, old(errors))
        decreases |targets| - k
      {
        ghost var before := errors;
        var inserted := InsertErrorMessage(targets[k], input, rule);
        if !inserted {
          assert InsertErrors(ctx, targets, k, input, rule, before) == Run(before, Raised(RewriteLimit));
          return false;
        }
        assert InsertErrors(ctx, targets, k, input, rule, before) == InsertErrors(ctx, targets, k + 1, input, rule, errors);
        k := k + 1;
      }
      return true;
    }

    /** One rule of the loop: dispatched without its `!`s, its verdict inverted if negated. */
    method EvaluateRule(rule: Entry, input: Value, field: string) returns (st: Status)
      modifies this`errors
      ensures Run(errors, st) == Evaluate(Context(), field, input, rule, old(errors))
      decreases input, 2, 1
    {
      var name := RuleName(rule);
      st := ExecuteValidator(StripBang(name), input, rule.val, field);
      if '!' in name && st.Done? {
        st := Done(!st.valid);
      }
    }

    /**
     * One iteration of the rule loop of `_validate_single_field`: either the field is
     * finished (a fault, or a failure in quick mode) or the loop goes on with `valid'`.
     */
    method RuleStep(field: string, input: Value, rules: seq<Entry>, targets: seq<Value>, i: nat,
                    valid: bool, required: bool) returns (stop: bool, st: Status, valid': bool)
      requires i < |rules| && required == RequiredUpTo(rules, i)
      modifies this`errors
      ensures stop ==> Run(errors, st) == RuleLoop(Context(), field, input, rules, targets, i, valid, old(errors))
      ensures !stop ==> (RuleLoop(Context(), field, input, rules, targets, i + 1, valid', errors) ==
                         RuleLoop(Context(), field, input, rules, targets, i, valid, old(errors)))
      decreases input, 3, 0
    {
      stop, st, valid' := false, Done(valid), valid;
      if !required && IsEmptyInput(input) {
        return;
      }
      var r := EvaluateRule(rules[i], input, field);
      if r.Raised? {
        return true, r, valid;
      }
      if !r.valid {
        valid' := false;
        var ok := ReportFailure(targets, input, Display(RuleName(rules[i])));
        if !ok {
          return true, Raised(RewriteLimit), false;
        }
        if quick {
          return true, Done(false), false;
        }
      }
    }

    /** `_validate_single_field`. */
    method ValidateSingleField(field: string, input: Value, def: Value) returns (st: Status)
      modifies this`errors
      ensures Run(errors, st) == FieldRun(Context(), field, input, def, old(errors))
      decreases input, 4, 0
    {
      var invalidated, rules := ExtractInvalidatedFields(def);
      var targets := if invalidated == [] then [Str(field)] else invalidated;
      assert targets == Targets(field, def);
      ghost var ctx := Context();
      ghost var run := FieldRun(ctx, field, input, def, errors);
      var required := false;
      var valid := true;
      var i := 0;
      while i < |rules|
        invariant 0 <= i <= |rules| && Context() == ctx
        invariant required == (i > 0 && RequiredUpTo(rules, i - 1))
        invariant RuleLoop(ctx, field, input, rules, targets, i, valid, errors) == run
      {
        if RuleName(rules[i]) == "required" {
          required := true;
        }
        RequiredUpToStep(rules, i);
        var stop;
        stop, st, valid := RuleStep(field, input, rules, targets, i, valid, required);
        if stop {
          return;
        }
        i := i + 1;
      }
      return Done(valid);
    }

    /** `_execute_validator`. */
    method ExecuteValidator(name: string, input: Value, params: Value, field: string) returns (st: Status)
      modifies this`errors
      ensures Run(errors, st) == Execute(Context(), field, name, input, params, old(errors))
      decreases input, 2, 0
    {
      var ctx := Context();
      var resolved := DecipherMaskedFieldReferences(Show(ctx), params, Get(ctx));
      if resolved.None? {
        return Raised(RewriteLimit);
      }
      var p := resolved.value;
      var lname := Lower(name);
      if lname == "array" {
        st := ValidatorArray(input, p, field);
      } else if lname in BuiltinNames {
        st := Done(Builtin(php, lname, input, p, field, data));
      } else if name in custom && custom[name].Callable? {
        st := Done(custom[name].f(input, p, field, data));
      } else {
        st := Raised(UnknownValidator(name));
      }
    }

    /** `__validator__array`: every element is validated with `def` as its rule map. */
    method ValidatorArray(input: Value, def: Value, field: string) returns (st: Status)
      modifies this`errors
      ensures Run(errors, st) == ArrayRule(Context(), field, input, def, old(errors))
      decreases input, 1, 0
    {
      if !input.Null? && !input.Arr? {
        return Done(false);
      }
      if input.Null? {
        return Done(true);
      }
      var ctx := Context();
      var es := input.entries;
      var result := true;
      var j := 0;
      while j < |es|
        invariant 0 <= j <= |es| && Context() == ctx
        invariant ElementLoop(ctx, field, input, def, j, result, errors) ==
          ElementLoop(ctx, field, input, def, 0, true, old(errors))
      {
        assert es[j] in es;
        var ok := ValidateSingleField(field, es[j].val, def);
        if ok.Raised? {
          return ok;
        }
        if !ok.valid {
          result := false;
        }
        j := j + 1;
      }
      return Done(result);
    }

    /** `_validate`: the table is cleared and every field validated; a fault stops it. */
    method Validate() returns (fault: Option<Fault>)
      modifies this`errors, this`isValidated
      ensures var run := ValidateFrom(Context(), vldtrs, 0, []);
        errors == run.errs && fault == (if run.status.Raised? then Some(run.status.fault) else None) &&
        isValidated == (old(isValidated) || fault.None?)
    {
      ghost var ctx := Context();
      ghost var run := ValidateFrom(ctx, vldtrs, 0, []);
      errors := [];
      var i := 0;
      while i < |vldtrs|
        invariant 0 <= i <= |vldtrs| && Context() == ctx && isValidated == old(isValidated)
        invariant ValidateFrom(ctx, vldtrs, i, errors) == run
      {
        var f := KeyString(vldtrs[i].key);
        ghost var before := errors;
        var st := ValidateSingleField(f, AdsGet(data, f), vldtrs[i].val);
        ValidateFromStep(ctx, vldtrs, i, before, Run(errors, st));
        if st.Raised? {
          return Some(st.fault);
        }
        i := i + 1;
      }
      isValidated := true;
      return None;
    }

    /**
     * `is_valid`: validates only when the data is not validated yet, and is true exactly
     * when the error table is empty.
     */
    method IsValid() returns (valid: bool, fault: Option<Fault>)
      modifies this`errors, this`isValidated
      ensures old(isValidated) ==> errors == old(errors) && isValidated && fault.None?
      ensures !old(isValidated) ==>
        var run := ValidateFrom(Context(), vldtrs, 0, []);
        errors == run.errs && fault == (if run.status.Raised? then Some(run.status.fault) else None) &&
        isValidated == fault.None?
      ensures fault.None? ==> valid == (errors == [])
    {
      fault := None;
      if !isValidated {
        fault := Validate();
        if fault.Some? {
          return false, fault;
        }
      }
      valid := errors == [];
    }
  }
}
