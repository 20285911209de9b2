/**
 * Masked field references: a parameter or a message may name another field of the data
 * as "~{path}~" (src/BaseValidator.php:51-52). Resolving a value replaces every such
 * marker by the value the path addresses in the data, repeatedly, until no marker is
 * left (src/BaseValidator.php:190-216).
 *
 * The marker is found as the PCRE pattern `~\{(.+?)\}~` finds it: the leftmost "~{",
 * then the shortest non-empty content without a line feed that is followed by "}~".
 * The rewrite loop of the source need not terminate (a field may hold its own marker);
 * the model bounds it by `Fuel` rounds and reports running out as `None`.
 */
module References {
  import opened PhpValues
  import opened DotSyntax

  /** `_mask_field_reference`: the marker naming field `id`. */
  function Mask(id: string): (m: string)
    ensures |m| == |id| + 4
    ensures m[..2] == "~{" && m[2..|m| - 2] == id && m[|m| - 2..] == "}~"
  {
    "~{" + id + "}~"
  }

  predicate OpensAt(s: string, i: int)
  {
    0 <= i && i + 1 < |s| && s[i] == '~' && s[i + 1] == '{'
  }

  predicate ClosesAt(s: string, k: int)
  {
    0 <= k && k + 1 < |s| && s[k] == '}' && s[k + 1] == '~'
  }

  /**
   * Reference definition of a match of `~\{(.+?)\}~` starting at `i` whose content is
   * `s[i + 2..j]`: content non-empty and free of line feeds, and `j` the first closing
   * position after the first content character (the lazy quantifier).
   */
  predicate Marker(s: string, i: int, j: int)
  {
    OpensAt(s, i) && i + 3 <= j && ClosesAt(s, j)
    && (forall m :: i + 2 <= m < j ==> s[m] != '\n')
    && (forall m :: i + 3 <= m < j ==> !ClosesAt(s, m))
  }

  /** The closing position of the marker opened at `i`, scanning from `k`. */
  function CloseFrom(s: string, k: nat): (r: Option<nat>)
    ensures r.Some? ==> k <= r.value && r.value + 1 < |s|
    decreases |s| - k
  {
    if ClosesAt(s, k) then Some(k)
    else if k < |s| && s[k] != '\n' then CloseFrom(s, k + 1)
    else None
  }

  /** The closing position of a marker starting at `i`, if one starts there. */
  function MatchAt(s: string, i: nat): (r: Option<nat>)
    ensures r.Some? ==> i + 3 <= r.value && r.value + 1 < |s|
  {
    if OpensAt(s, i) && i + 3 <= |s| && s[i + 2] != '\n' then CloseFrom(s, i + 3)
    else None
  }

  /** The leftmost marker starting at or after `i`, as (start, closing position). */
  function FindFrom(s: string, i: nat): (r: Option<(nat, nat)>)
    ensures r.Some? ==> i <= r.value.0 && r.value.0 + 3 <= r.value.1 && r.value.1 + 2 <= |s|
    decreases |s| - i
  {
    if i >= |s| then None
    else match MatchAt(s, i)
      case Some(j) => Some((i, j))
      case None => FindFrom(s, i + 1)
  }

  /** `preg_match` with the marker pattern: the leftmost marker of `s`. */
  function FindMarker(s: string): (r: Option<(nat, nat)>)
    ensures r.Some? ==> r.value.0 + 3 <= r.value.1 && r.value.1 + 2 <= |s|
  {
    FindFrom(s, 0)
  }

  /** The scan for the closing "}~" finds the lazy match, or proves there is none. */
  lemma {:induction false} CloseFromSpec(s: string, i: nat, k: nat)
    requires OpensAt(s, i) && i + 3 <= k <= |s|
    requires forall m :: i + 2 <= m < k ==> s[m] != '\n'
    requires forall m :: i + 3 <= m < k ==> !ClosesAt(s, m)
    ensures CloseFrom(s, k).Some? ==> Marker(s, i, CloseFrom(s, k).value)
    ensures CloseFrom(s, k).None? ==> forall j :: !Marker(s, i, j)
    decreases |s| - k
  {
    if !ClosesAt(s, k) && k < |s| && s[k] != '\n' {
      CloseFromSpec(s, i, k + 1);
    }
  }

  lemma MatchAtSpec(s: string, i: nat)
    ensures MatchAt(s, i).Some? ==> Marker(s, i, MatchAt(s, i).value)
    ensures MatchAt(s, i).None? ==> forall j :: !Marker(s, i, j)
  {
    if OpensAt(s, i) && i + 3 <= |s| && s[i + 2] != '\n' {
      CloseFromSpec(s, i, i + 3);
    }
  }

  lemma {:induction false} FindFromSpec(s: string, i: nat)
    ensures FindFrom(s, i).Some? ==>
      i <= FindFrom(s, i).value.0 && Marker(s, FindFrom(s, i).value.0, FindFrom(s, i).value.1)
    ensures FindFrom(s, i).Some? ==>
      forall a, j :: i <= a < FindFrom(s, i).value.0 ==> !Marker(s, a, j)
    ensures FindFrom(s, i).None? ==> forall a, j :: i <= a ==> !Marker(s, a, j)
    decreases |s| - i
  {
    if i < |s| {
      MatchAtSpec(s, i);
      if MatchAt(s, i).None? {
        FindFromSpec(s, i + 1);
      }
    }
  }

  /** `FindMarker` agrees with the reference definition: the leftmost match, or none. */
  lemma FindMarkerSpec(s: string)
    ensures FindMarker(s).Some? ==> Marker(s, FindMarker(s).value.0, FindMarker(s).value.1)
    ensures FindMarker(s).Some? ==> forall a, j :: 0 <= a < FindMarker(s).value.0 ==> !Marker(s, a, j)
    ensures FindMarker(s).None? <==> forall a, j :: !Marker(s, a, j)
  {
    FindFromSpec(s, 0);
  }

  /** The lazy match is unique: one opening has at most one closing. */
  lemma MarkerUnique(s: string, i: int, j: int, j': int)
    requires Marker(s, i, j) && Marker(s, i, j')
    ensures j == j'
  {
  }

  /** A marker is found exactly where the reference definition places one. */
  lemma FindMarkerUnique(s: string, i: nat, j: nat)
    requires Marker(s, i, j)
    requires forall a, b :: 0 <= a < i ==> !Marker(s, a, b)
    ensures FindMarker(s) == Some((i, j))
  {
    FindMarkerSpec(s);
    var (a, b) := FindMarker(s).value;
    MarkerUnique(s, i, b, j);
  }

  /** The marker built for a field id is found as the whole string, content `id`. */
  lemma MaskFound(id: string)
    requires |id| >= 1 && '\n' !in id
    requires forall p :: 1 <= p < |id| - 1 ==> !(id[p] == '}' && id[p + 1] == '~')
    ensures FindMarker(Mask(id)) == Some((0, (|id| + 2) as nat))
  {
    var m := Mask(id);
    assert forall p :: 0 <= p < |id| ==> m[p + 2] == id[p];
    assert forall k :: 2 <= k < |id| + 2 ==> m[k] != '\n';
    forall k | 3 <= k < |id| + 2
      ensures !ClosesAt(m, k)
    {
      if k == |id| + 1 {
        assert m[k + 1] == '}';
      } else {
        assert m[k] == id[k - 2] && m[k + 1] == id[k - 1];
      }
    }
    assert Marker(m, 0, |id| + 2);
    FindMarkerUnique(m, 0, |id| + 2);
  }

  // ---------------------------------------------------------------------------------
  // str_replace

  predicate OccursAt(s: string, pat: string, k: int)
  {
    0 <= k && k + |pat| <= |s| && s[k..k + |pat|] == pat
  }

  /** `str_replace($pat, $rep, $s)`: every occurrence, left to right, without overlap. */
  function StrReplace(s: string, pat: string, rep: string): string
    requires |pat| > 0
    decreases |s|
  {
    if |s| < |pat| then s
    else if s[..|pat|] == pat then rep + StrReplace(s[|pat|..], pat, rep)
    else [s[0]] + StrReplace(s[1..], pat, rep)
  }

  /** Dropping a first character that starts no occurrence: occurrences shift by one. */
  lemma ShiftOccurrences(s: string, pat: string, n: nat)
    requires |s| >= 1 && n <= |s|
    requires forall k :: 0 <= k < n ==> !OccursAt(s, pat, k)
    ensures forall k :: 0 <= k < n - 1 ==> !OccursAt(s[1..], pat, k)
  {
    forall k | 0 <= k < n - 1
      ensures !OccursAt(s[1..], pat, k)
    {
      assert !OccursAt(s, pat, k + 1);
      if k + |pat| <= |s| - 1 {
        assert s[1..][k..k + |pat|] == s[k + 1..k + 1 + |pat|];
      }
    }
  }

  lemma SeqAssoc(s: string, i: nat, x: string)
    requires 1 <= i <= |s|
    ensures [s[0]] + (s[1..][..i - 1] + x) == s[..i] + x
  {
    assert [s[0]] + s[1..][..i - 1] == s[..i];
  }

  /** No occurrence at the front: the first character is kept and the rest is replaced. */
  lemma StrReplaceSkip(s: string, pat: string, rep: string)
    requires |pat| > 0 && |s| >= |pat| && !OccursAt(s, pat, 0)
    ensures StrReplace(s, pat, rep) == [s[0]] + StrReplace(s[1..], pat, rep)
  {
  }

  /** The replaced rest of the string, with the skipped first character put back. */
  lemma StrReplaceFront(s: string, pat: string, rep: string, i: nat)
    requires |pat| > 0 && 1 <= i && OccursAt(s, pat, i) && !OccursAt(s, pat, 0)
    requires StrReplace(s[1..], pat, rep) ==
      s[1..][..i - 1] + (rep + StrReplace(s[1..][i - 1 + |pat|..], pat, rep))
    ensures StrReplace(s, pat, rep) == s[..i] + (rep + StrReplace(s[i + |pat|..], pat, rep))
  {
    assert s[1..][i - 1 + |pat|..] == s[i + |pat|..];
    StrReplaceSkip(s, pat, rep);
    SeqAssoc(s, i, rep + StrReplace(s[i + |pat|..], pat, rep));
  }

  /** An occurrence at the front is replaced and the scan goes on after it. */
  lemma StrReplaceAtFront(s: string, pat: string, rep: string)
    requires |pat| > 0 && OccursAt(s, pat, 0)
    ensures StrReplace(s, pat, rep) == s[..0] + (rep + StrReplace(s[|pat|..], pat, rep))
  {
    assert s[..|pat|] == pat;
    assert s[..0] == [];
  }

  /** The first occurrence at `i > 0` is the first occurrence at `i - 1` of the rest. */
  lemma ShiftFirst(s: string, pat: string, i: nat)
    requires 1 <= i && OccursAt(s, pat, i)
    requires forall k :: 0 <= k < i ==> !OccursAt(s, pat, k)
    ensures OccursAt(s[1..], pat, i - 1)
    ensures forall k :: 0 <= k < i - 1 ==> !OccursAt(s[1..], pat, k)
  {
    assert s[1..][i - 1..i - 1 + |pat|] == s[i..i + |pat|];
    ShiftOccurrences(s, pat, i);
  }

  /** Text before the first occurrence is kept; the occurrence becomes `rep`. */
  lemma {:induction false} StrReplaceFirst(s: string, pat: string, rep: string, i: nat)
    requires |pat| > 0 && OccursAt(s, pat, i)
    requires forall k :: 0 <= k < i ==> !OccursAt(s, pat, k)
    ensures StrReplace(s, pat, rep) == s[..i] + (rep + StrReplace(s[i + |pat|..], pat, rep))
    decreases i
  {
    if i == 0 {
      StrReplaceAtFront(s, pat, rep);
    } else {
      ShiftFirst(s, pat, i);
      var t := s[1..];
      StrReplaceFirst(t, pat, rep, i - 1);
      assert StrReplace(t, pat, rep) == t[..i - 1] + (rep + StrReplace(t[i - 1 + |pat|..], pat, rep));
      StrReplaceFront(s, pat, rep, i);
    }
  }

  /** A string in which the pattern does not occur is left as it is. */
  lemma {:induction false} StrReplaceAbsent(s: string, pat: string, rep: string)
    requires |pat| > 0
    requires forall k :: !OccursAt(s, pat, k)
    ensures StrReplace(s, pat, rep) == s
    decreases |s|
  {
    if |s| >= |pat| {
      assert !OccursAt(s, pat, 0);
      var t := s[1..];
      forall k | true
        ensures !OccursAt(t, pat, k)
      {
        if 0 <= k && k + |pat| <= |t| {
          assert !OccursAt(s, pat, k + 1);
          assert t[k..k + |pat|] == s[k + 1..k + 1 + |pat|];
        }
      }
      StrReplaceAbsent(t, pat, rep);
      assert s == [s[0]] + t;
    }
  }

  // ---------------------------------------------------------------------------------
  // Resolving references

  /** The number of marker rewrites modelled before resolution is reported as divergent. */
  const Fuel: nat := 1000

  /**
   * The `while` loop of `_decipher_masked_field_references_rec` on a string: a marker
   * that is the whole string is replaced by the referenced value itself (which keeps
   * its type; only a string goes on being scanned), a marker inside a longer string is
   * replaced, in all its occurrences, by the string conversion of that value. `get` is
   * the lookup into the data source, `ads_get($aSource, path)`, and `show` PHP's string
   * conversion (`PhpString`).
   */
  function ResolveString(show: Value -> string, s: string, get: string -> Value, fuel: nat): Option<Value>
    decreases fuel
  {
    match FindMarker(s)
    case None => Some(Str(s))
    case Some((i, j)) =>
      if fuel == 0 then None
      else
        var repl := get(s[i + 2..j]);
        if j + 2 - i != |s| then
          ResolveString(show, StrReplace(s, s[i..j + 2], show(repl)), get, fuel - 1)
        else if repl.Str? then ResolveString(show, repl.s, get, fuel - 1)
        else Some(repl)
  }

  /**
   * `_decipher_masked_field_references_rec`: strings are resolved, arrays element by
   * element (keys kept), every other value is left as it is.
   */
  function Resolve(show: Value -> string, v: Value, get: string -> Value, fuel: nat): Option<Value>
    decreases v
  {
    match v
    case Str(s) => ResolveString(show, s, get, fuel)
    case Arr(es) =>
      if forall i :: 0 <= i < |es| ==> ResolveElement(show, es, i, get, fuel).Some? then
        Some(Arr(seq(|es|, i requires 0 <= i < |es| =>
          Entry(es[i].key, ResolveElement(show, es, i, get, fuel).value))))
      else None
    case _ => Some(v)
  }

  function ResolveElement(show: Value -> string, es: seq<Entry>, i: nat, get: string -> Value, fuel: nat): Option<Value>
    requires i < |es|
    decreases Arr(es), 0
  {
    assert es[i] in es;
    Resolve(show, es[i].val, get, fuel)
  }

  /** A string without a marker resolves to itself. */
  lemma ResolveNoMarker(show: Value -> string, s: string, get: string -> Value, fuel: nat)
    requires forall a, j :: !Marker(s, a, j)
    ensures ResolveString(show, s, get, fuel) == Some(Str(s))
  {
    FindMarkerSpec(s);
  }

  /**
   * A string that is exactly the marker of `id` resolves to the value `id` addresses,
   * of whatever type that value is; a string value is resolved in turn.
   */
  lemma ResolveWholeMarker(show: Value -> string, id: string, get: string -> Value, fuel: nat)
    requires |id| >= 1 && '\n' !in id
    requires forall p :: 1 <= p < |id| - 1 ==> !(id[p] == '}' && id[p + 1] == '~')
    ensures ResolveString(show, Mask(id), get, fuel + 1) ==
      if get(id).Str? then ResolveString(show, get(id).s, get, fuel)
      else Some(get(id))
  {
    MaskFound(id);
    var m := Mask(id);
    assert m[2..|id| + 2] == id;
  }

  /**
   * A marker inside a longer string is replaced by the string form of the referenced
   * value; what precedes the marker is kept as it is.
   */
  lemma ResolvePartialStep(show: Value -> string, s: string, get: string -> Value, fuel: nat)
    requires FindMarker(s).Some?
    requires FindMarker(s).value.1 + 2 - FindMarker(s).value.0 != |s|
    ensures var (i, j) := FindMarker(s).value;
      var rep := show(get(s[i + 2..j]));
      StrReplace(s, s[i..j + 2], rep) == s[..i] + (rep + StrReplace(s[j + 2..], s[i..j + 2], rep))
      && ResolveString(show, s, get, fuel + 1) ==
         ResolveString(show, StrReplace(s, s[i..j + 2], rep), get, fuel)
  {
    FindMarkerSpec(s);
    var (i, j) := FindMarker(s).value;
    var pat := s[i..j + 2];
    forall k | 0 <= k < i
      ensures !OccursAt(s, pat, k)
    {
      if OccursAt(s, pat, k) {
        forall m | k <= m < k + |pat|
          ensures s[m] == s[i + (m - k)]
        {
          assert s[k..k + |pat|][m - k] == s[m];
          assert pat[m - k] == s[i + (m - k)];
        }
        assert s[k] == s[i] && s[k + 1] == s[i + 1];
        assert OpensAt(s, k);
        assert Marker(s, k, k + (j - i)) by {
          forall m | k + 2 <= m < k + (j - i)
            ensures s[m] != '\n'
          {
            assert s[m] == s[i + (m - k)];
          }
          forall m | k + 3 <= m < k + (j - i)
            ensures !ClosesAt(s, m)
          {
            assert s[m] == s[i + (m - k)] && s[m + 1] == s[i + (m - k) + 1];
            assert !ClosesAt(s, i + (m - k));
          }
          assert s[k + (j - i)] == s[j] && s[k + (j - i) + 1] == s[j + 1];
        }
      }
    }
    StrReplaceFirst(s, pat, show(get(s[i + 2..j])), i);
  }

  /**
   * A string result of resolution holds no marker any more (`FindMarkerSpec` turns this
   * into the absence of every match of the pattern).
   */
  lemma ResolvedStringHasNoMarker(show: Value -> string, s: string, get: string -> Value, fuel: nat)
    requires ResolveString(show, s, get, fuel).Some?
    requires ResolveString(show, s, get, fuel).value.Str?
    ensures FindMarker(ResolveString(show, s, get, fuel).value.s).None?
  {
    ResolvesToNoMarker(show, s, get, fuel, ResolveString(show, s, get, fuel).value.s);
  }

  /** The induction behind `ResolvedStringHasNoMarker`, on fuel, for a known result `v`. */
  lemma {:induction false} ResolvesToNoMarker(show: Value -> string, s: string, get: string -> Value, fuel: nat, v: string)
    requires ResolveString(show, s, get, fuel) == Some(Str(v))
    ensures FindMarker(v).None?
    decreases fuel
  {
    var m := FindMarker(s);
    ResolveStringStop(show, s, get, fuel);
    if m.Some? {
      var i, j := m.value.0, m.value.1;
      ResolveStringStep(show, s, get, fuel, i, j);
      var next := if j + 2 - i != |s| then StrReplace(s, s[i..j + 2], show(get(s[i + 2..j]))) else get(s[i + 2..j]).s;
      assert ResolveString(show, next, get, fuel - 1) == Some(Str(v));
      ResolvesToNoMarker(show, next, get, fuel - 1, v);
    }
  }

  /** Resolving twice changes nothing more when the first pass ends in a string. */
  lemma ResolveStringIdempotent(show: Value -> string, s: string, get: string -> Value, fuel: nat, fuel': nat)
    requires ResolveString(show, s, get, fuel).Some?
    requires ResolveString(show, s, get, fuel).value.Str?
    ensures var t := ResolveString(show, s, get, fuel).value.s;
      ResolveString(show, t, get, fuel') == Some(Str(t))
  {
    ResolvedStringHasNoMarker(show, s, get, fuel);
  }

  /** Resolution keeps an array an array with the same keys in the same order. */
  lemma ResolveKeepsKeys(show: Value -> string, es: seq<Entry>, get: string -> Value, fuel: nat)
    requires Resolve(show, Arr(es), get, fuel).Some?
    ensures Resolve(show, Arr(es), get, fuel).value.Arr?
    ensures Keys(Resolve(show, Arr(es), get, fuel).value.entries) == Keys(es)
  {
  }

  /** A field holding its own marker makes resolution of that marker run forever. */
  lemma {:induction false} SelfReferenceDiverges(show: Value -> string, id: string, get: string -> Value, fuel: nat)
    requires |id| >= 1 && '\n' !in id
    requires forall p :: 1 <= p < |id| - 1 ==> !(id[p] == '}' && id[p + 1] == '~')
    requires get(id) == Str(Mask(id))
    ensures ResolveString(show, Mask(id), get, fuel) == None
    decreases fuel
  {
    MaskFound(id);
    assert Mask(id)[2..|id| + 2] == id;
    if fuel > 0 {
      SelfReferenceDiverges(show, id, get, fuel - 1);
    }
  }

  // ---------------------------------------------------------------------------------
  // The imperative procedure

  /** The rewrite loop stops when no marker is left or the rounds are used up. */
  lemma ResolveStringStop(show: Value -> string, s: string, get: string -> Value, fuel: nat)
    ensures FindMarker(s).None? ==> ResolveString(show, s, get, fuel) == Some(Str(s))
    ensures FindMarker(s).Some? && fuel == 0 ==> ResolveString(show, s, get, fuel) == None
  {
  }

  /** One round of the rewrite loop on a string with a marker at `(i, j)`. */
  lemma ResolveStringStep(show: Value -> string, s: string, get: string -> Value, fuel: nat, i: nat, j: nat)
    requires FindMarker(s) == Some((i, j)) && fuel > 0
    ensures i + 2 <= j && j + 2 <= |s|
    ensures j + 2 - i != |s| ==>
      ResolveString(show, s, get, fuel)
      == ResolveString(show, StrReplace(s, s[i..j + 2], show(get(s[i + 2..j]))), get, fuel - 1)
    ensures j + 2 - i == |s| && get(s[i + 2..j]).Str? ==>
      ResolveString(show, s, get, fuel) == ResolveString(show, get(s[i + 2..j]).s, get, fuel - 1)
    ensures j + 2 - i == |s| && !get(s[i + 2..j]).Str? ==>
      ResolveString(show, s, get, fuel) == Some(get(s[i + 2..j]))
  {
  }

  /** The rewrite loop on a string, proved against `ResolveString` with `Fuel` rounds. */
  method DecipherString(show: Value -> string, s: string, get: string -> Value) returns (r: Option<Value>)
    ensures r == ResolveString(show, s, get, Fuel)
  {
    var cur := s;
    var fuel := Fuel;
    ghost var target := ResolveString(show, s, get, Fuel);
    while true
      invariant ResolveString(show, cur, get, fuel) == target
      decreases fuel
    {
      var next, stop := RewriteRound(show, cur, get, fuel);
      if stop.Some? {
        return stop.value;
      }
      cur, fuel := next, fuel - 1;
    }
  }

  /**
   * One pass of the `while` loop body of `_decipher_masked_field_references_rec`: stop
   * with the outcome, or rewrite the string for the next round.
   */
  method RewriteRound(show: Value -> string, cur: string, get: string -> Value, fuel: nat)
    returns (next: string, stop: Option<Option<Value>>)
    ensures stop.Some? ==> stop.value == ResolveString(show, cur, get, fuel)
    ensures stop.None? ==> fuel > 0 && ResolveString(show, next, get, fuel - 1) == ResolveString(show, cur, get, fuel)
  {
    ResolveStringStop(show, cur, get, fuel);
    next := cur;
    var found := FindMarker(cur);
    if found.None? {
      return next, Some(Some(Str(cur)));
    }
    if fuel == 0 {
      return next, Some(None);
    }
    var i := found.value.0;
    var j := found.value.1;
    ResolveStringStep(show, cur, get, fuel, i, j);
    var repl := get(cur[i + 2..j]);
    if j + 2 - i != |cur| {
      next := StrReplace(cur, cur[i..j + 2], show(repl));
      stop := None;
    } else if repl.Str? {
      next := repl.s;
      stop := None;
    } else {
      stop := Some(Some(repl));
    }
  }

  /**
   * `_decipher_masked_field_references_rec`: recursion into arrays element by element,
   * the rewrite loop on strings, other values untouched.
   */
  method DecipherMaskedFieldReferences(show: Value -> string, v: Value, get: string -> Value) returns (r: Option<Value>)
    ensures r == Resolve(show, v, get, Fuel)
    decreases v, 1
  {
    if v.Str? {
      r := DecipherString(show, v.s, get);
    } else if v.Arr? {
      r := DecipherArray(show, v.entries, get);
    } else {
      r := Some(v);
    }
  }

  /** The `foreach` of `_decipher_masked_field_references_rec` over an array, keys kept. */
  method DecipherArray(show: Value -> string, es: seq<Entry>, get: string -> Value) returns (r: Option<Value>)
    ensures r == Resolve(show, Arr(es), get, Fuel)
    decreases Arr(es), 0
  {
    var out: seq<Entry> := [];
    var i := 0;
    while i < |es|
      invariant 0 <= i <= |es|
      invariant |out| == i
      invariant forall k :: 0 <= k < i ==> ResolveElement(show, es, k, get, Fuel).Some?
      invariant forall k :: 0 <= k < i ==>
        out[k] == Entry(es[k].key, ResolveElement(show, es, k, get, Fuel).value)
    {
      assert es[i] in es;
      var e := DecipherMaskedFieldReferences(show, es[i].val, get);
      assert e == ResolveElement(show, es, i, get, Fuel);
      if e.None? {
        ResolveArrayFails(show, es, i, get, Fuel);
        return None;
      }
      out := out + [Entry(es[i].key, e.value)];
      i := i + 1;
    }
    ResolveArrayResolves(show, es, out, get, Fuel);
    r := Some(Arr(out));
  }

  /** One element that fails to resolve makes the whole array fail. */
  lemma ResolveArrayFails(show: Value -> string, es: seq<Entry>, i: nat, get: string -> Value, fuel: nat)
    requires i < |es| && ResolveElement(show, es, i, get, fuel).None?
    ensures Resolve(show, Arr(es), get, fuel) == None
  { }

  /** When every element resolves, the array resolves to its elements' results under the same keys. */
  lemma ResolveArrayResolves(show: Value -> string, es: seq<Entry>, out: seq<Entry>, get: string -> Value, fuel: nat)
    requires |out| == |es|
    requires forall k :: 0 <= k < |es| ==> ResolveElement(show, es, k, get, fuel).Some?
    requires forall k :: 0 <= k < |es| ==> out[k] == Entry(es[k].key, ResolveElement(show, es, k, get, fuel).value)
    ensures Resolve(show, Arr(es), get, fuel) == Some(Arr(out))
  {
    assert out == seq(|es|, k requires 0 <= k < |es| => Entry(es[k].key, ResolveElement(show, es, k, get, fuel).value));
  }
}
