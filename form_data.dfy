/**
 * The value-level part of the form pipeline of src/BaseForm.php: the recursive merge that
 * lays the default values under the submitted data, whitelisting, the CSRF token check,
 * dropping the two security fields, `get`, the filter list `add_filters` builds, and what
 * one filter does to the filtered data. The class that holds this state is in forms.dfy.
 */
module FormData {
  import opened PhpValues
  import opened DotSyntax
  import opened References
  import Rules
  import Engine
  import StringFilters

  /** The hidden fields every form whitelists (src/BaseForm.php:107, 119). */
  const TokenKey: Key := SKey("::csrf_token")
  const SubmittedKey: Key := SKey("::is_submitted")

  // ---------------------------------------------------------------------------------
  // `_array_merge_recursive_ex`

  /**
   * `_array_merge_recursive_ex($a, $b)`: a copy of `a` into which the entries of `b` are
   * merged one by one, in order.
   */
  function MergeRecursive(php: Php, a: seq<Entry>, b: seq<Entry>): seq<Entry>
    decreases Arr(b), 1, 0
  {
    MergePrefix(php, a, b, |b|)
  }

  /** The copy after the first `n` entries of `b` have been merged in. */
  function MergePrefix(php: Php, a: seq<Entry>, b: seq<Entry>, n: nat): seq<Entry>
    requires n <= |b|
    decreases Arr(b), 0, n
  {
    if n == 0 then a else MergeOne(php, MergePrefix(php, a, b, n - 1), b, n - 1)
  }

  /** The entry to merge and the value already there are both arrays. */
  predicate BothArrays(acc: seq<Entry>, e: Entry)
  {
    e.val.Arr? && Lookup(acc, e.key).Some? && Lookup(acc, e.key).value.Arr?
  }

  /**
   * One round of the loop: two arrays are merged recursively; otherwise a numeric key
   * appends the value unless `in_array` finds it already (loosely), and any other key
   * overwrites.
   */
  function MergeOne(php: Php, acc: seq<Entry>, b: seq<Entry>, i: nat): seq<Entry>
    requires i < |b|
    decreases Arr(b), 0, 0
  {
    var e := b[i];
    if BothArrays(acc, e) then
      assert e in b;
      Put(acc, e.key, Arr(MergeRecursive(php, Lookup(acc, e.key).value.entries, e.val.entries)))
    else if Engine.IsNumericKey(php, e.key) then
      if Rules.In(php, e.val, Arr(acc)) then acc else Push(acc, e.val)
    else Put(acc, e.key, e.val)
  }

  /** The value a non-numeric key ends with when `v` is merged onto what was there. */
  function MergedValue(php: Php, before: Option<Value>, v: Value): Value
  {
    if v.Arr? && before.Some? && before.value.Arr? then
      Arr(MergeRecursive(php, before.value.entries, v.entries))
    else v
  }

  /** One round keeps every key where it was and adds only its own key or an integer key. */
  lemma MergeOneKeys(php: Php, acc: seq<Entry>, b: seq<Entry>, i: nat)
    requires i < |b|
    ensures Keys(acc) <= Keys(MergeOne(php, acc, b, i))
    ensures forall k :: k in Keys(MergeOne(php, acc, b, i)) && k !in Keys(acc) ==> k == b[i].key || k.IKey?
  {
  }

  lemma {:induction false} MergePrefixKeys(php: Php, a: seq<Entry>, b: seq<Entry>, n: nat)
    requires n <= |b|
    ensures Keys(a) <= Keys(MergePrefix(php, a, b, n))
    ensures forall k :: k in Keys(MergePrefix(php, a, b, n)) && k !in Keys(a) ==> k in Keys(b) || k.IKey?
  {
    if n > 0 {
      var acc := MergePrefix(php, a, b, n - 1);
      MergePrefixKeys(php, a, b, n - 1);
      MergeOneKeys(php, acc, b, n - 1);
      assert Keys(b)[n - 1] == b[n - 1].key;
      forall k | k in Keys(MergePrefix(php, a, b, n)) && k !in Keys(a)
        ensures k in Keys(b) || k.IKey?
      {
        if k !in Keys(acc) {
          assert k == b[n - 1].key || k.IKey?;
        }
      }
    }
  }

  /**
   * Every key of the first array survives the merge, in its place; a key the result has
   * beyond those comes from the second array or is an appended integer key.
   */
  lemma MergeRecursiveKeys(php: Php, a: seq<Entry>, b: seq<Entry>)
    ensures Keys(a) <= Keys(MergeRecursive(php, a, b))
    ensures forall k :: k in Keys(MergeRecursive(php, a, b)) && k !in Keys(a) ==> k in Keys(b) || k.IKey?
  {
    MergePrefixKeys(php, a, b, |b|);
  }

  /** A round for another key leaves that key's value alone (appending uses a fresh key). */
  lemma MergeOneOther(php: Php, acc: seq<Entry>, b: seq<Entry>, i: nat, k: Key)
    requires i < |b| && b[i].key != k && k != IKey(NextIndex(acc))
    ensures Lookup(MergeOne(php, acc, b, i), k) == Lookup(acc, k)
  {
    var e := b[i];
    if BothArrays(acc, e) {
      PutOther(acc, e.key, Arr(MergeRecursive(php, Lookup(acc, e.key).value.entries, e.val.entries)), k);
    } else if Engine.IsNumericKey(php, e.key) {
      if !Rules.In(php, e.val, Arr(acc)) {
        PushOther(acc, e.val, k);
      }
    } else {
      PutOther(acc, e.key, e.val, k);
    }
  }

  lemma {:induction false} MergePrefixOther(php: Php, a: seq<Entry>, b: seq<Entry>, n: nat, k: Key)
    requires n <= |b| && k in Keys(a) && k !in Keys(b)
    ensures Lookup(MergePrefix(php, a, b, n), k) == Lookup(a, k)
  {
    if n > 0 {
      var acc := MergePrefix(php, a, b, n - 1);
      MergePrefixOther(php, a, b, n - 1, k);
      MergePrefixKeys(php, a, b, n - 1);
      assert k in Keys(acc) by {
        var j :| 0 <= j < |a| && Keys(a)[j] == k;
        assert Keys(acc)[j] == k;
      }
      assert Keys(b)[n - 1] == b[n - 1].key;
      MergeOneOther(php, acc, b, n - 1, k);
    }
  }

  /** A key of the first array that the second lacks keeps its value. */
  lemma MergeRecursiveOther(php: Php, a: seq<Entry>, b: seq<Entry>, k: Key)
    requires k in Keys(a) && k !in Keys(b)
    ensures Lookup(MergeRecursive(php, a, b), k) == Lookup(a, k)
  {
    MergePrefixOther(php, a, b, |b|, k);
  }

  /** The round for a non-numeric key sets it to the merged value. */
  lemma MergeOneAt(php: Php, acc: seq<Entry>, b: seq<Entry>, i: nat)
    requires i < |b| && !Engine.IsNumericKey(php, b[i].key)
    ensures Lookup(MergeOne(php, acc, b, i), b[i].key) == Some(MergedValue(php, Lookup(acc, b[i].key), b[i].val))
  {
  }

  lemma {:induction false} MergePrefixStringKey(php: Php, a: seq<Entry>, b: seq<Entry>, n: nat, k: Key)
    requires n <= |b| && DistinctKeys(b) && !Engine.IsNumericKey(php, k)
    ensures var j := IndexOf(b, k);
      Lookup(MergePrefix(php, a, b, n), k) ==
        if j.Some? && j.value < n then Some(MergedValue(php, Lookup(a, k), b[j.value].val)) else Lookup(a, k)
  {
    if n > 0 {
      var i := n - 1;
      var acc := MergePrefix(php, a, b, i);
      assert MergePrefix(php, a, b, n) == MergeOne(php, acc, b, i);
      MergePrefixStringKey(php, a, b, i, k);
      var j := IndexOf(b, k);
      if b[i].key == k {
        IndexOfAt(b, k, i);
        assert Lookup(acc, k) == Lookup(a, k);
        MergeOneAt(php, acc, b, i);
      } else {
        MergeOneOther(php, acc, b, i, k);
        if j.Some? {
          assert b[j.value].key == k;
          assert j.value != i;
        }
      }
    }
  }

  /**
   * A key that is neither an integer nor a numeric string ends with the second array's
   * value, merged recursively when both values are arrays, and keeps the first array's
   * value (or absence) when the second array lacks it.
   */
  lemma MergeRecursiveStringKey(php: Php, a: seq<Entry>, b: seq<Entry>, k: Key)
    requires DistinctKeys(b) && !Engine.IsNumericKey(php, k)
    ensures Lookup(MergeRecursive(php, a, b), k) ==
      match Lookup(b, k)
      case Some(v) => Some(MergedValue(php, Lookup(a, k), v))
      case None => Lookup(a, k)
  {
    MergePrefixStringKey(php, a, b, |b|, k);
  }

  /**
   * A numeric key whose value is not merged recursively appends the value under a new
   * integer key exactly when `in_array` does not find it among the values already there.
   */
  lemma MergeOneNumeric(php: Php, acc: seq<Entry>, b: seq<Entry>, i: nat)
    requires i < |b| && Engine.IsNumericKey(php, b[i].key) && !BothArrays(acc, b[i])
    ensures Rules.In(php, b[i].val, Arr(acc)) ==> MergeOne(php, acc, b, i) == acc
    ensures !Rules.In(php, b[i].val, Arr(acc)) ==>
      var r := MergeOne(php, acc, b, i);
      r[..|acc|] == acc && Keys(r) == Keys(acc) + [IKey(NextIndex(acc))] && r[|acc|].val == b[i].val
  {
  }

  /** Merging in an empty array changes nothing. */
  lemma MergeRecursiveEmpty(php: Php, a: seq<Entry>)
    ensures MergeRecursive(php, a, []) == a
  {
  }

  // ---------------------------------------------------------------------------------
  // Whitelisting and the raw form data

  /**
   * The keys of `array_flip($whitelist)`: a string value gives its key, an integer value
   * its integer key, and any other value is skipped (with a warning).
   */
  function AllowedKeys(wl: seq<Entry>): (ks: seq<Key>)
    ensures forall k :: k in ks <==> exists i :: 0 <= i < |wl| && FlippedKey(wl[i].val) == Some(k)
  {
    if wl == [] then []
    else
      var rest := AllowedKeys(wl[1..]);
      assert forall i :: 1 <= i < |wl| ==> wl[i] == wl[1..][i - 1];
      assert forall i :: 0 <= i < |wl| - 1 ==> wl[1..][i] == wl[i + 1];
      match FlippedKey(wl[0].val)
      case Some(k) => [k] + rest
      case None => rest
  }

  /** The key `array_flip` makes of a value, if it can. */
  function FlippedKey(v: Value): Option<Key>
  {
    match v
    case Str(s) => Some(KeyOfString(s))
    case Int(i) => Some(IKey(i))
    case _ => None
  }

  /** `array_intersect_key($r, $keys)`: the entries of `r` whose key is listed, in order. */
  function KeepKeys(r: seq<Entry>, ks: seq<Key>): (out: seq<Entry>)
    ensures forall e :: e in out ==> e in r && e.key in ks
  {
    if r == [] then [] else if r[0].key in ks then [r[0]] + KeepKeys(r[1..], ks) else KeepKeys(r[1..], ks)
  }

  lemma {:induction false} KeepKeysLookup(r: seq<Entry>, ks: seq<Key>, k: Key)
    ensures Lookup(KeepKeys(r, ks), k) == if k in ks then Lookup(r, k) else None
  {
    if r == [] {
    } else {
      KeepKeysLookup(r[1..], ks, k);
      assert r == [r[0]] + r[1..];
      LookupCons(r[0], r[1..], k);
      if r[0].key in ks {
        LookupCons(r[0], KeepKeys(r[1..], ks), k);
      }
    }
  }

  lemma {:induction false} KeepKeysDistinct(r: seq<Entry>, ks: seq<Key>)
    requires DistinctKeys(r)
    ensures DistinctKeys(KeepKeys(r, ks))
  {
    if r != [] {
      var rest := KeepKeys(r[1..], ks);
      assert DistinctKeys(r[1..]) by {
        assert forall i :: 0 <= i < |r| - 1 ==> r[1..][i] == r[i + 1];
      }
      KeepKeysDistinct(r[1..], ks);
      if r[0].key in ks {
        assert forall e :: e in rest ==> e.key != r[0].key by {
          assert forall e :: e in r[1..] ==> e.key != r[0].key;
        }
        var out := [r[0]] + rest;
        assert forall i :: 1 <= i < |out| ==> out[i] == rest[i - 1] && out[i] in rest;
      }
    }
  }

  /** Whitelisting applies only when some field has been whitelisted. */
  function Whitelisted(r: seq<Entry>, wl: seq<Entry>): seq<Entry>
  {
    if wl == [] then r else KeepKeys(r, AllowedKeys(wl))
  }

  /** The submitted array as `array_merge([], $raw)` stores it, or nothing for a non-array. */
  function Submitted(raw: Value): seq<Entry>
  {
    if raw.Arr? then ArrayMerge([], raw.entries) else []
  }

  /**
   * The whitelist-then-defaults step of `get_raw_form_data`, given the submitted value
   * for the form: an array is copied by `array_merge` (a falsy value is skipped, and any
   * other non-array makes the intermediate result null, which the merges turn back into
   * the defaults), then whitelisted, then merged on top of the defaults.
   */
  function RawFormData(php: Php, raw: Value, wl: seq<Entry>, defaults: seq<Entry>): seq<Entry>
  {
    MergeRecursive(php, defaults, Whitelisted(Submitted(raw), wl))
  }

  lemma {:induction false} MergeEntriesDistinct(acc: seq<Entry>, xs: seq<Entry>)
    requires DistinctKeys(acc)
    ensures DistinctKeys(MergeEntries(acc, xs))
  {
    if xs != [] {
      var m := MergeEntries(acc, xs[..|xs| - 1]);
      var e := xs[|xs| - 1];
      MergeEntriesDistinct(acc, xs[..|xs| - 1]);
      if e.key.SKey? {
        PutDistinct(m, e.key, e.val);
      } else {
        var r := Push(m, e.val);
        assert forall i :: 0 <= i < |m| ==> r[i] == m[i] && m[i].key == Keys(m)[i];
      }
    }
  }

  /** Every default key is in the raw form data, in its place. */
  lemma RawFormDataKeepsDefaults(php: Php, raw: Value, wl: seq<Entry>, defaults: seq<Entry>)
    ensures Keys(defaults) <= Keys(RawFormData(php, raw, wl, defaults))
  {
    MergeRecursiveKeys(php, defaults, Whitelisted(Submitted(raw), wl));
  }

  /**
   * A field that is neither an integer nor a numeric string takes its submitted value when
   * it was submitted and the whitelist is empty or allows it (merged recursively with an
   * array default), and otherwise its default value, or stays absent.
   */
  lemma RawFormDataLookup(php: Php, raw: Value, wl: seq<Entry>, defaults: seq<Entry>, k: Key)
    requires !Engine.IsNumericKey(php, k)
    ensures Lookup(RawFormData(php, raw, wl, defaults), k) ==
      if raw.Arr? && k in Keys(raw.entries) && (wl == [] || k in AllowedKeys(wl))
      then Some(MergedValue(php, Lookup(defaults, k), LastValue(raw.entries, k)))
      else Lookup(defaults, k)
  {
    var s := Submitted(raw);
    var w := Whitelisted(s, wl);
    assert DistinctKeys(s) by {
      if raw.Arr? {
        MergeEntriesDistinct([], raw.entries);
        MergeEntriesDistinct(MergeEntries([], []), raw.entries);
      }
    }
    assert DistinctKeys(w) by {
      if wl != [] {
        KeepKeysDistinct(s, AllowedKeys(wl));
      }
    }
    MergeRecursiveStringKey(php, defaults, w, k);
    if wl != [] {
      KeepKeysLookup(s, AllowedKeys(wl), k);
    }
    if raw.Arr? {
      ArrayMergeStringKey([], raw.entries, k);
    }
  }

  // ---------------------------------------------------------------------------------
  // Token, stripping and `get`

  /**
   * `_check_token`: a token of `false` disables the check; otherwise the submitted token
   * field (null when missing) must be identical to the token.
   */
  function CheckToken(token: Value, raw: seq<Entry>): (ok: bool)
    ensures ok && token != Bool(false) ==>
      Lookup(raw, TokenKey) == Some(token) || (Lookup(raw, TokenKey) == None && token == Null)
    ensures !ok ==> token != Bool(false) && Lookup(raw, TokenKey) != Some(token)
  {
    token == Bool(false) || (match Lookup(raw, TokenKey) case Some(v) => v case None => Null) == token
  }

  /**
   * `get_filtered_form_data`: the filtered data without the token and the submitted
   * markers, every other entry kept in order.
   */
  function StripSecurityKeys(data: seq<Entry>): (r: seq<Entry>)
    ensures TokenKey !in Keys(r) && SubmittedKey !in Keys(r)
    ensures forall e :: e in r ==> e in data
  {
    var r := Remove(Remove(data, TokenKey), SubmittedKey);
    assert forall i :: 0 <= i < |r| ==> Keys(r)[i] == r[i].key;
    r
  }

  /** Exactly the two security fields disappear; every other field reads as before. */
  lemma StripSecurityKeysLookup(data: seq<Entry>, k: Key)
    ensures Lookup(StripSecurityKeys(data), k) ==
      if k == TokenKey || k == SubmittedKey then None else Lookup(data, k)
  {
    var once := Remove(data, TokenKey);
    if k == SubmittedKey {
      RemoveGone(once, SubmittedKey);
    } else if k == TokenKey {
      RemoveGone(data, TokenKey);
      RemoveOther(once, SubmittedKey, TokenKey);
    } else {
      RemoveOther(data, TokenKey, k);
      RemoveOther(once, SubmittedKey, k);
    }
  }

  /**
   * `get($key)`: the whole filtered data for a null key, else the value under the key
   * when it is set (present and not null), else null.
   */
  function Fetch(data: seq<Entry>, key: Value): (r: Value)
    ensures key == Null ==> r == Arr(data)
    ensures key != Null ==> (r != Null <==> KeyOfValue(key).Some? && IsSet(data, KeyOfValue(key).value))
    ensures key != Null && r != Null ==> Lookup(data, KeyOfValue(key).value) == Some(r)
  {
    if key == Null then Arr(data)
    else match KeyOfValue(key)
      case None => Null
      case Some(k) => if IsSet(data, k) then Lookup(data, k).value else Null
  }

  // ---------------------------------------------------------------------------------
  // The filter list

  /** One entry of the filter list: what to call, the field to write and the parameters. */
  datatype FilterSpec = FilterSpec(callable: Key, field: Key, params: seq<Entry>)

  /** The actions of one field: a non-array is a one-element list, then normalised. */
  function ActionsOf(php: Php, actions: Value): seq<Entry>
  {
    Engine.Normalize(php, if actions.Arr? then actions else Arr([Entry(IKey(0), actions)]))
  }

  /**
   * The parameters of one action: null means the field's own value, given by its marker;
   * a non-array is a one-element list.
   */
  function ParamsOf(field: Key, p: Value): (r: seq<Entry>)
    ensures p == Null ==> r == [Entry(IKey(0), Str(Mask(KeyString(field))))]
    ensures p.Arr? ==> r == p.entries
    ensures p != Null && !p.Arr? ==> r == [Entry(IKey(0), p)]
  {
    var q := if p == Null then Str(Mask(KeyString(field))) else p;
    if q.Arr? then q.entries else [Entry(IKey(0), q)]
  }

  /** The filters one field declares, in declaration order. */
  function FieldFilters(php: Php, field: Key, actions: Value): (fs: seq<FilterSpec>)
    ensures |fs| == |ActionsOf(php, actions)|
  {
    var acts := ActionsOf(php, actions);
    seq(|acts|, j requires 0 <= j < |acts| => FilterSpec(acts[j].key, field, ParamsOf(field, acts[j].val)))
  }

  /**
   * The `j`-th filter of a field calls the `j`-th normalised action, on the field, with
   * that action's parameters.
   */
  lemma FieldFiltersAt(php: Php, field: Key, actions: Value, j: nat)
    requires j < |ActionsOf(php, actions)|
    ensures var a := ActionsOf(php, actions)[j];
      FieldFilters(php, field, actions)[j] == FilterSpec(a.key, field, ParamsOf(field, a.val))
  {
  }

  /** The filters a settings array declares: field by field, in declaration order. */
  function FiltersOf(php: Php, settings: seq<Entry>): seq<FilterSpec>
  {
    if settings == [] then []
    else
      var last := settings[|settings| - 1];
      FiltersOf(php, settings[..|settings| - 1]) + FieldFilters(php, last.key, last.val)
  }

  lemma FiltersOfStep(php: Php, es: seq<Entry>, i: nat)
    requires i < |es|
    ensures FiltersOf(php, es[..i + 1]) == FiltersOf(php, es[..i]) + FieldFilters(php, es[i].key, es[i].val)
  {
    assert es[..i + 1][..i] == es[..i];
  }

  /**
   * A field whose only action is a filter name (not numeric) gets exactly one filter, which
   * calls that name on the field's own value.
   */
  lemma SingleNameFilter(php: Php, field: Key, name: string)
    ensures FieldFilters(php, field, Str(name)) ==
      [FilterSpec(KeyOfString(name), field, [Entry(IKey(0), Str(Mask(KeyString(field))))])]
  {
    var es := [Entry(IKey(0), Str(name))];
    assert es[..|es| - 1] == [];
    assert Put([], KeyOfString(name), Null) == [Entry(KeyOfString(name), Null)];
    assert Engine.Declared(php, es[0]) == Some(Entry(KeyOfString(name), Null));
    assert Engine.NormalizeEntries(php, es[..0]) == [];
    assert Engine.NormalizeEntries(php, es) == Put([], KeyOfString(name), Null);
    assert ActionsOf(php, Str(name)) == [Entry(KeyOfString(name), Null)];
  }

  // ---------------------------------------------------------------------------------
  // One filter

  /**
   * `_get_masked_field_reference`: the path named by a parameter that is exactly one
   * marker (the first match of the marker pattern spans the whole string).
   */
  function MaskedFieldReference(v: Value): (r: Option<string>)
    ensures r.Some? ==> v.Str? && v.s == Mask(r.value) && r.value != []
  {
    if v.Str? then
      FindMarkerSpec(v.s);
      match FindMarker(v.s)
      case Some((i, j)) =>
        if i == 0 && j + 2 == |v.s| then
          assert v.s == v.s[..2] + v.s[2..j] + v.s[j..];
          Some(v.s[2..j])
        else None
      case None => None
    else None
  }

  /** The marker made for a field is recognised as naming that field. */
  lemma MaskedFieldReferenceOfMask(id: string)
    requires |id| >= 1 && '\n' !in id
    requires forall p :: 1 <= p < |id| - 1 ==> !(id[p] == '}' && id[p + 1] == '~')
    ensures MaskedFieldReference(Str(Mask(id))) == Some(id)
  {
    MaskFound(id);
  }

  /**
   * A parameter after reference resolution: an exact marker whose path is truthy (not
   * "0") is replaced by the value at that path in the current data.
   */
  function ResolvedParam(data: seq<Entry>, v: Value): Value
  {
    match MaskedFieldReference(v)
    case Some(p) => if p != "0" then AdsGet(Arr(data), p) else v
    case None => v
  }

  /** The parameters after the resolution loop of `_execute_filter`; keys stay. */
  function ResolveParams(data: seq<Entry>, params: seq<Entry>): (r: seq<Entry>)
    ensures Keys(r) == Keys(params)
  {
    var r := seq(|params|, i requires 0 <= i < |params| => Entry(params[i].key, ResolvedParam(data, params[i].val)));
    assert Keys(r) == Keys(params);
    r
  }

  /** Parameters holding no marker are passed on unchanged. */
  lemma ResolveParamsPlain(data: seq<Entry>, params: seq<Entry>)
    requires forall i :: 0 <= i < |params| ==> MaskedFieldReference(params[i].val).None?
    ensures ResolveParams(data, params) == params
  {
    assert forall i :: 0 <= i < |params| ==> ResolveParams(data, params)[i] == params[i];
  }

  /**
   * The default parameter of a filter is the field's own current value, for a field name
   * that is non-empty, not "0", and holds no line feed or "}~".
   */
  lemma DefaultParamIsOwnValue(data: seq<Entry>, id: string)
    requires |id| >= 1 && '\n' !in id && id != "0"
    requires forall p :: 1 <= p < |id| - 1 ==> !(id[p] == '}' && id[p + 1] == '~')
    ensures ResolvedParam(data, Str(Mask(id))) == AdsGet(Arr(data), id)
  {
    MaskedFieldReferenceOfMask(id);
  }

  /**
   * `_get_masked_filter_reference`: a string matching `^@(.+?)$` gives what follows the
   * '@' (the pattern's `$` also matches before a final line feed, which `preg_replace`
   * keeps); anything else gives `false`.
   */
  function MaskedFilterReference(c: Key): (r: Option<string>)
    ensures r.Some? <==> c.SKey? && |c.s| >= 2 && c.s[0] == '@' && FilterNameBody(c.s[1..])
    ensures r.Some? ==> r.value == c.s[1..]
  {
    if c.SKey? && |c.s| >= 2 && c.s[0] == '@' && FilterNameBody(c.s[1..]) then Some(c.s[1..]) else None
  }

  /** What `(.+?)$` accepts: a non-empty line, optionally followed by one line feed. */
  predicate FilterNameBody(t: string)
  {
    var line := if t != [] && t[|t| - 1] == '\n' then t[..|t| - 1] else t;
    line != [] && '\n' !in line
  }

  /**
   * "@name" is unmasked back to "name" exactly when `name` is what `(.+?)$` accepts; in
   * particular for every non-empty name without a line feed.
   */
  lemma MaskedFilterReferenceOfName(name: string)
    ensures MaskedFilterReference(KeyOfString("@" + name)) == if FilterNameBody(name) then Some(name) else None
    ensures name != [] && '\n' !in name ==> MaskedFilterReference(KeyOfString("@" + name)) == Some(name)
  {
    var s := "@" + name;
    assert s[0] == '@' && s[1..] == name;
    assert !IsCanonicalInt(s);
    if name != [] && '\n' !in name {
      assert name[|name| - 1] != '\n';
    }
  }

  /** Masking an unmasked filter name again gives the filter key back. */
  lemma MaskedFilterReferenceRemask(c: Key)
    requires MaskedFilterReference(c).Some?
    ensures KeyOfString("@" + MaskedFilterReference(c).value) == c
  {
    var s := c.s;
    assert "@" + s[1..] == s;
    assert !IsCanonicalInt(s);
  }

  /** What a filter entry resolves to: a callable or a built-in `__filter__` method. */
  datatype Callee = Callable(fn: FilterFn) | Builtin(b: StringFilters.BuiltinName)

  /**
   * The callee of a filter name: a PHP callable; else, for "@name", the custom filter
   * `name` or the built-in one; else (no '@') whatever `isset($custom[false])` finds,
   * which is the custom filter under key 0.
   */
  function FilterCallee(php: Php, custom: map<Key, FilterFn>, c: Key): (r: Option<Callee>)
    ensures c.SKey? && php.callable(c.s).Some? ==> r == Some(Callable(php.callable(c.s).value))
    ensures !(c.SKey? && php.callable(c.s).Some?) && MaskedFilterReference(c).None? ==>
      r == if IKey(0) in custom then Some(Callable(custom[IKey(0)])) else None
    ensures !(c.SKey? && php.callable(c.s).Some?) && MaskedFilterReference(c).Some? ==>
      var name := MaskedFilterReference(c).value;
      r == if KeyOfString(name) in custom then Some(Callable(custom[KeyOfString(name)]))
           else match StringFilters.BuiltinOf(name) case Some(b) => Some(Builtin(b)) case None => None
  {
    if c.SKey? && php.callable(c.s).Some? then Some(Callable(php.callable(c.s).value))
    else match MaskedFilterReference(c)
      case Some(name) =>
        if KeyOfString(name) in custom then Some(Callable(custom[KeyOfString(name)]))
        else (match StringFilters.BuiltinOf(name) case Some(b) => Some(Builtin(b)) case None => None)
      case None => if IKey(0) in custom then Some(Callable(custom[IKey(0)])) else None
  }

  /** A built-in filter cannot be reached by its bare name, only as "@name". */
  lemma BareNameIsNotBuiltin(php: Php, custom: map<Key, FilterFn>, name: string)
    requires name == [] || name[0] != '@'
    ensures FilterCallee(php, custom, KeyOfString(name)) != None ==>
      (KeyOfString(name).SKey? && php.callable(name).Some?) || IKey(0) in custom
    ensures forall b :: FilterCallee(php, custom, KeyOfString(name)) != Some(Builtin(b))
  {
    KeyStringRoundTrip(name);
  }

  function Call(php: Php, c: Callee, args: seq<Value>): FilterResult
  {
    match c
    case Callable(fn) => fn(args)
    case Builtin(b) => StringFilters.BuiltinFilter(php, b, args)
  }

  /** The filtered data after a filter, and whether an uncaught `Error` stopped the script. */
  datatype Outcome = Outcome(data: seq<Entry>, halted: bool)

  /**
   * `_execute_filter`: resolve the parameters against the current data, find the callee,
   * call it with the parameter values in order, and write a returned value at the field's
   * path. No callee, or an `Exception`, leaves the data as it was; an `Error` is not
   * caught and ends the script.
   */
  function ExecFilter(php: Php, custom: map<Key, FilterFn>, data: seq<Entry>, f: FilterSpec): (o: Outcome)
    ensures match FilterCallee(php, custom, f.callable)
      case None => o == Outcome(data, false)
      case Some(c) =>
        match Call(php, c, Values(ResolveParams(data, f.params)))
        case Returned(v) => !o.halted && AdsGet(Arr(o.data), KeyString(f.field)) == v
        case Threw => o == Outcome(data, false)
        case Failed => o == Outcome(data, true)
  {
    match FilterCallee(php, custom, f.callable)
    case None => Outcome(data, false)
    case Some(c) =>
      match Call(php, c, Values(ResolveParams(data, f.params)))
      case Returned(v) =>
        var w := AdsSet(Arr(data), KeyString(f.field), v);
        AdsGetSet(Arr(data), KeyString(f.field), v);
        Outcome(w.entries, false)
      case Threw => Outcome(data, false)
      case Failed => Outcome(data, true)
  }

  /** A filter writes only under the first segment of its field's path. */
  lemma ExecFilterFrame(php: Php, custom: map<Key, FilterFn>, data: seq<Entry>, f: FilterSpec, k: Key)
    requires k != KeyOfString(Split(KeyString(f.field))[0])
    ensures Lookup(ExecFilter(php, custom, data, f).data, k) == Lookup(data, k)
  {
    match FilterCallee(php, custom, f.callable)
    case None =>
    case Some(c) =>
      match Call(php, c, Values(ResolveParams(data, f.params)))
      case Returned(v) =>
        AdsSetTopLevel(data, KeyString(f.field), v, k);
      case Threw =>
      case Failed =>
  }

  /** `filter`: the filters in list order from `data`, stopping at one that halts. */
  function FilterFrom(php: Php, custom: map<Key, FilterFn>, data: seq<Entry>, fs: seq<FilterSpec>, i: nat): Outcome
    requires i <= |fs|
    decreases |fs| - i
  {
    if i == |fs| then Outcome(data, false)
    else
      var o := ExecFilter(php, custom, data, fs[i]);
      if o.halted then o else FilterFrom(php, custom, o.data, fs, i + 1)
  }

  function FilterAll(php: Php, custom: map<Key, FilterFn>, raw: seq<Entry>, fs: seq<FilterSpec>): Outcome
  {
    FilterFrom(php, custom, raw, fs, 0)
  }

  /** With no filter that can be resolved, filtering gives back the raw data. */
  lemma {:induction false} FilterFromUnresolved(php: Php, custom: map<Key, FilterFn>, data: seq<Entry>, fs: seq<FilterSpec>, i: nat)
    requires i <= |fs|
    requires forall j :: i <= j < |fs| ==> FilterCallee(php, custom, fs[j].callable).None?
    ensures FilterFrom(php, custom, data, fs, i) == Outcome(data, false)
    decreases |fs| - i
  {
    if i < |fs| {
      FilterFromUnresolved(php, custom, data, fs, i + 1);
    }
  }

  /** Filtering only ever writes under the first segments of the filtered fields' paths. */
  lemma {:induction false} FilterFromFrame(php: Php, custom: map<Key, FilterFn>, data: seq<Entry>, fs: seq<FilterSpec>, i: nat, k: Key)
    requires i <= |fs|
    requires forall j :: i <= j < |fs| ==> k != KeyOfString(Split(KeyString(fs[j].field))[0])
    ensures Lookup(FilterFrom(php, custom, data, fs, i).data, k) == Lookup(data, k)
    decreases |fs| - i
  {
    if i < |fs| {
      var o := ExecFilter(php, custom, data, fs[i]);
      ExecFilterFrame(php, custom, data, fs[i], k);
      if !o.halted {
        FilterFromFrame(php, custom, o.data, fs, i + 1, k);
      }
    }
  }

  /** Appending a filter continues from where the others left the data. */
  lemma {:induction false} FilterFromAppend(php: Php, custom: map<Key, FilterFn>, data: seq<Entry>, fs: seq<FilterSpec>, f: FilterSpec, i: nat)
    requires i <= |fs|
    ensures var o := FilterFrom(php, custom, data, fs, i);
      FilterFrom(php, custom, data, fs + [f], i) == if o.halted then o else ExecFilter(php, custom, o.data, f)
    decreases |fs| - i
  {
    var gs := fs + [f];
    assert forall j :: 0 <= j < |fs| ==> gs[j] == fs[j];
    if i < |fs| {
      var o := ExecFilter(php, custom, data, fs[i]);
      if !o.halted {
        FilterFromAppend(php, custom, o.data, fs, f, i + 1);
      }
    }
  }
}
