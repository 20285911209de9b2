/**
 * The form of src/BaseForm.php as an object: its whitelist, CSRF token, default values,
 * raw and filtered data, filter list and custom filters, and the operations that update
 * them. Each method is proved against the value-level definitions of module FormData.
 */
module Forms {
  import opened PhpValues
  import opened DotSyntax
  import opened References
  import opened FormData
  import Rules
  import Engine

  /** `isset($aSettings[$name])`, with the value. */
  function Setting(settings: seq<Entry>, name: string): (r: Option<Value>)
    ensures r.Some? <==> IsSet(settings, SKey(name))
    ensures r.Some? ==> Lookup(settings, SKey(name)) == Some(r.value)
  {
    if IsSet(settings, SKey(name)) then Lookup(settings, SKey(name)) else None
  }

  /** A non-array argument as a one-element list. */
  function AsList(v: Value): seq<Entry>
  {
    if v.Arr? then v.entries else [Entry(IKey(0), v)]
  }

  /** What a `foreach` over `v` visits: the entries of an array, nothing for anything else. */
  function ArrayOr(v: Value): seq<Entry>
  {
    if v.Arr? then v.entries else []
  }

  /** `$aSettings[$name]` as a `foreach` sees it, or nothing when it is not set. */
  function SettingArray(settings: seq<Entry>, name: string): seq<Entry>
  {
    match Setting(settings, name)
    case Some(v) => ArrayOr(v)
    case None => []
  }

  /** The fields every form whitelists: the token field and the submitted marker. */
  const SecurityFields: seq<Entry> := [Entry(IKey(0), Str(TokenKey.s)), Entry(IKey(1), Str(SubmittedKey.s))]

  /** The whitelist after the constructor's first `add_whitelisted_fields`. */
  function BaseWhitelist(): seq<Entry>
  {
    ArrayMerge([], SecurityFields)
  }

  /**
   * The loop of `add_filters`: the (callable, params) pairs of every field, in
   * declaration order.
   */
  method CollectFilters(php: Php, es: seq<Entry>) returns (filters: seq<FilterSpec>)
    ensures filters == FiltersOf(php, es)
  {
    filters := [];
    var i := 0;
    while i < |es|
      invariant 0 <= i <= |es|
      invariant filters == FiltersOf(php, es[..i])
    {
      var added := CollectFieldFilters(php, es[i].key, es[i].val);
      filters := filters + added;
      FiltersOfStep(php, es, i);
      i := i + 1;
    }
    assert es[..i] == es;
  }

  /**
   * The inner loop of `add_filters`: one field's actions, each with its parameters
   * (the field's own value when they are null, a one-element list when not an array).
   */
  method CollectFieldFilters(php: Php, field: Key, actionsDef: Value) returns (added: seq<FilterSpec>)
    ensures added == FieldFilters(php, field, actionsDef)
  {
    var actions := ActionsOf(php, actionsDef);
    ghost var expected := FieldFilters(php, field, actionsDef);
    added := [];
    var j := 0;
    while j < |actions|
      invariant 0 <= j <= |actions|
      invariant added == expected[..j]
    {
      var p := actions[j].val;
      if p == Null {
        p := Str(Mask(KeyString(field)));
      }
      var params := if p.Arr? then p.entries else [Entry(IKey(0), p)];
      FieldFiltersAt(php, field, actionsDef, j);
      assert params == ParamsOf(field, actions[j].val);
      added := added + [FilterSpec(actions[j].key, field, params)];
      assert expected[..j + 1] == expected[..j] + [expected[j]];
      j := j + 1;
    }
    assert expected[..j] == expected;
  }

  /** `_array_merge_recursive_ex`: a copy of `a` with the entries of `b` merged into it. */
  method ArrayMergeRecursiveEx(php: Php, a: seq<Entry>, b: seq<Entry>) returns (merged: seq<Entry>)
    ensures merged == MergeRecursive(php, a, b)
    decreases Arr(b)
  {
    merged := a;
    var i := 0;
    while i < |b|
      invariant 0 <= i <= |b|
      invariant merged == MergePrefix(php, a, b, i)
    {
      var e := b[i];
      ghost var before := merged;
      if BothArrays(merged, e) {
        assert e in b;
        var sub := ArrayMergeRecursiveEx(php, Lookup(merged, e.key).value.entries, e.val.entries);
        merged := Put(merged, e.key, Arr(sub));
        assert merged == MergeOne(php, before, b, i);
      } else if Engine.IsNumericKey(php, e.key) {
        if !Rules.In(php, e.val, Arr(merged)) {
          merged := Push(merged, e.val);
        }
        assert merged == MergeOne(php, before, b, i);
      } else {
        merged := Put(merged, e.key, e.val);
        assert merged == MergeOne(php, before, b, i);
      }
      assert MergePrefix(php, a, b, i + 1) == MergeOne(php, MergePrefix(php, a, b, i), b, i);
      i := i + 1;
    }
  }

  /**
   * The whitelist-then-defaults step of `get_raw_form_data`: a non-empty submitted array
   * is copied with `array_merge`, cut down to the whitelist when there is one, and merged
   * on top of the defaults.
   */
  method ReadRawFormData(php: Php, submitted: Value, whitelist: seq<Entry>, defaults: seq<Entry>) returns (r: seq<Entry>)
    ensures r == RawFormData(php, submitted, whitelist, defaults)
  {
    var result: seq<Entry> := [];
    if submitted.Arr? && submitted.entries != [] {
      result := ArrayMerge(result, submitted.entries);
    }
    if whitelist != [] {
      result := KeepKeys(result, AllowedKeys(whitelist));
    }
    r := ArrayMergeRecursiveEx(php, defaults, result);
  }

  class Form {
    /** The PHP library functions the form calls. */
    const php: Php
    var whitelist: seq<Entry>
    var token: Value
    var defaults: seq<Entry>
    var raw: seq<Entry>
    var filtered: seq<Entry>
    var filters: seq<FilterSpec>
    var customFilters: map<Key, FilterFn>
    var submitMethod: Value

    /**
     * `__construct($aSettings)` for the settings that decide the form data: the security
     * fields and any `whitelist` are whitelisted, then `token` and `default_values` are
     * taken, the raw data is read from `submitted` (the form's entry of the request) and
     * copied to the filtered data, and last the `filters` are added. Each step does what
     * the method it calls does on a fresh form (`add_whitelisted_fields`,
     * `add_default_values`, `get_raw_form_data`, `add_filters`), on local values.
     */
    constructor (php: Php, submitted: Value, settings: seq<Entry>)
      ensures this.php == php
      ensures whitelist == match Setting(settings, "whitelist")
        case Some(w) => ArrayMerge(BaseWhitelist(), AsList(w))
        case None => BaseWhitelist()
      ensures token == match Setting(settings, "token") case Some(t) => t case None => Bool(false)
      ensures defaults == MergeRecursive(php, [], SettingArray(settings, "default_values"))
      ensures raw == RawFormData(php, submitted, whitelist, defaults) && filtered == raw
      ensures filters == FiltersOf(php, SettingArray(settings, "filters"))
      ensures customFilters == map[] && submitMethod == Str("POST")
    {
      this.php := php;
      var wl := ArrayMerge([], AsList(Arr(SecurityFields)));
      var t := Setting(settings, "token");
      token := if t.Some? then t.value else Bool(false);
      var w := Setting(settings, "whitelist");
      if w.Some? {
        wl := ArrayMerge(wl, AsList(w.value));
      }
      whitelist := wl;
      var df := ArrayMergeRecursiveEx(php, [], SettingArray(settings, "default_values"));
      defaults := df;
      var r := ReadRawFormData(php, submitted, wl, df);
      raw := r;
      filtered := r;
      var fl := CollectFilters(php, SettingArray(settings, "filters"));
      filters := fl;
      customFilters := map[];
      submitMethod := Str("POST");
    }

    /** `add_custom_filter_functions`: later filters of the same name replace earlier ones. */
    method AddCustomFilterFunctions(fs: map<Key, FilterFn>)
      modifies this`customFilters
      ensures customFilters == old(customFilters) + fs
    {
      customFilters := customFilters + fs;
    }

    /** `add_default_values`: the new values are merged onto the defaults; a non-array adds nothing. */
    method AddDefaultValues(d: Value)
      modifies this`defaults
      ensures defaults == MergeRecursive(php, old(defaults), ArrayOr(d))
    {
      defaults := ArrayMergeRecursiveEx(php, defaults, ArrayOr(d));
    }

    /**
     * `add_whitelisted_fields`: a non-array is wrapped in a list, and the fields are
     * appended with `array_merge`; duplicates stay, as the `array_unique` result is dropped.
     */
    method AddWhitelistedFields(f: Value) returns (r: seq<Entry>)
      modifies this`whitelist
      ensures whitelist == ArrayMerge(old(whitelist), AsList(f)) && r == whitelist
    {
      whitelist := ArrayMerge(whitelist, AsList(f));
      r := whitelist;
    }

    /**
     * `add_filters`: every field's actions are normalised and each (callable, params) pair
     * is appended to the filter list, in declaration order; a non-array adds nothing.
     */
    method AddFilters(settings: Value)
      modifies this`filters
      ensures filters == old(filters) + FiltersOf(php, ArrayOr(settings))
    {
      var added := CollectFilters(php, ArrayOr(settings));
      filters := filters + added;
    }

    /**
     * `get_raw_form_data` after reading the request: `submitted` is the form's entry of it.
     */
    method GetRawFormData(submitted: Value) returns (r: seq<Entry>)
      ensures r == RawFormData(php, submitted, whitelist, defaults)
    {
      r := ReadRawFormData(php, submitted, whitelist, defaults);
    }

    /**
     * `set_submit_method`: accepted when `in_array` finds the method (loosely) in
     * ["POST", "GET"]; otherwise the source throws and nothing changes.
     */
    method SetSubmitMethod(m: Value) returns (accepted: bool)
      modifies this`submitMethod
      ensures accepted <==> php.looseEq(m, Str("POST")) || php.looseEq(m, Str("GET"))
      ensures submitMethod == if accepted then m else old(submitMethod)
    {
      accepted := php.looseEq(m, Str("POST")) || php.looseEq(m, Str("GET"));
      if accepted {
        submitMethod := m;
      }
    }

    /**
     * `_execute_filter`: resolve the exact-marker parameters against the current filtered
     * data, find the callee and write what it returns at the field's path. Returns whether
     * an uncaught `Error` ended the script.
     */
    method ExecuteFilter(f: FilterSpec) returns (halted: bool)
      modifies this`filtered
      ensures Outcome(filtered, halted) == ExecFilter(php, customFilters, old(filtered), f)
    {
      ghost var expected := ExecFilter(php, customFilters, filtered, f);
      var params := f.params;
      var i := 0;
      while i < |params|
        invariant 0 <= i <= |params| && |params| == |f.params|
        invariant forall j :: 0 <= j < i ==> params[j] == Entry(f.params[j].key, ResolvedParam(filtered, f.params[j].val))
        invariant forall j :: i <= j < |params| ==> params[j] == f.params[j]
      {
        var name := MaskedFieldReference(params[i].val);
        if name.Some? && name.value != "0" {
          params := params[i := Entry(params[i].key, AdsGet(Arr(filtered), name.value))];
        }
        i := i + 1;
      }
      assert params == ResolveParams(filtered, f.params);
      var callee := FilterCallee(php, customFilters, f.callable);
      if callee.None? {
        assert expected == Outcome(filtered, false);
        return false;
      }
      var result := Call(php, callee.value, Values(params));
      if result.Returned? {
        filtered := AdsSet(Arr(filtered), KeyString(f.field), result.v).entries;
        halted := false;
      } else {
        halted := result.Failed?;
      }
      assert Outcome(filtered, halted) == expected;
    }

    /**
     * `filter`: start again from the raw data and run every filter in list order; the
     * list is kept. Returns whether a filter ended the script.
     */
    method Filter() returns (halted: bool)
      modifies this`filtered
      ensures Outcome(filtered, halted) == FilterAll(php, customFilters, raw, filters)
    {
      filtered := raw;
      ghost var run := FilterAll(php, customFilters, raw, filters);
      var i := 0;
      while i < |filters|
        invariant 0 <= i <= |filters|
        invariant FilterFrom(php, customFilters, filtered, filters, i) == run
      {
        halted := ExecuteFilter(filters[i]);
        if halted {
          return;
        }
        i := i + 1;
      }
      halted := false;
    }
  }
}
