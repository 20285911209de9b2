/**
 * The built-in validators of src/Validator.php (`__validator__<name>`), except `array`,
 * which validates nested fields and lives with the engine. Each takes the input value,
 * the (resolved) parameters, the field id and the data, as the engine passes them, and
 * answers whether the input passes.
 *
 * The validators that delegate to PHP library calls (dates, e-mail, URL, regular
 * expressions, image types, uploads) are answered by the oracle `php.libraryValidator`.
 */
module Rules {
  import opened PhpValues

  /** The names for which a `__validator__<name>` method exists. */
  const BuiltinNames: set<string> := {
    "array", "count", "date", "date_after", "date_before", "email", "eq", "eq_strict",
    "fl_range", "imagetype", "in", "in_strict", "int", "numeric", "regex", "required",
    "strlen", "upload", "url"}

  /** The built-ins whose answer comes from a PHP library call. */
  const LibraryNames: set<string> := {
    "date", "date_after", "date_before", "email", "imagetype", "regex", "upload", "url"}

  // ---------------------------------------------------------------------------------
  // Scanning helpers for the two interval patterns

  /** Length of the longest prefix of decimal digits. */
  function SpanDigits(s: string): (n: nat)
    ensures n <= |s| && AllDigits(s[..n])
    ensures n < |s| ==> !IsDigit(s[n])
  {
    if s != [] && IsDigit(s[0]) then
      var n := 1 + SpanDigits(s[1..]);
      assert s[..n] == [s[0]] + s[1..][..n - 1];
      n
    else 0
  }

  lemma SpanDigitsOf(d: string, rest: string)
    requires AllDigits(d) && (rest == [] || !IsDigit(rest[0]))
    ensures SpanDigits(d + rest) == |d|
  {
    assert forall i :: 0 <= i < |d| ==> (d + rest)[i] == d[i];
    assert rest != [] ==> (d + rest)[|d|] == rest[0];
  }

  // ---------------------------------------------------------------------------------
  // fl_range

  /**
   * An interval as `fl_range` reads it: each bound optional; the lower bound inclusive
   * only for '[', the upper bound inclusive only for ']'.
   */
  datatype Interval = Interval(lowerInclusive: bool, lower: Option<nat>, upper: Option<nat>, upperInclusive: bool)

  /** A captured `(\d*)` group: `is_numeric` holds exactly for a non-empty one. */
  function BoundOf(d: string): Option<nat>
    requires AllDigits(d)
  {
    if d == "" then None else Some(DigitsValue(d))
  }

  /** `\s*(\d*)\s*,\s*(\d*)\s*` matched against the whole of `m`: the two digit groups. */
  function ParseBounds(m: string): (r: Option<(string, string)>)
    ensures r.Some? ==> AllDigits(r.value.0) && AllDigits(r.value.1)
  {
    var r1 := m[SpanSpace(m)..];
    var lo := r1[..SpanDigits(r1)];
    var r2 := r1[SpanDigits(r1)..];
    var r3 := r2[SpanSpace(r2)..];
    if r3 == [] || r3[0] != ',' then None
    else
      var r4 := r3[1..];
      var r5 := r4[SpanSpace(r4)..];
      var hi := r5[..SpanDigits(r5)];
      var r6 := r5[SpanDigits(r5)..];
      if SpanSpace(r6) == |r6| then Some((lo, hi)) else None
  }

  /**
   * The interval pattern `^(\(|\]|\[)\s*(\d*)\s*\,\s*(\d*)\s*(\)|\]|\[)$` (src/Validator.php:89-91);
   * `$` also matches before a final line feed.
   */
  function ParseInterval(s: string): Option<Interval>
  {
    var t := if |s| > 0 && s[|s| - 1] == '\n' then s[..|s| - 1] else s;
    if |t| < 2 || !OpensInterval(t[0]) || !ClosesInterval(t[|t| - 1]) then None
    else match ParseBounds(t[1..|t| - 1])
      case None => None
      case Some((lo, hi)) => Some(Interval(t[0] == '[', BoundOf(lo), BoundOf(hi), t[|t| - 1] == ']'))
  }

  /** The first group of the pattern: `(`, `]` or `[`. */
  predicate OpensInterval(c: char)
  {
    c == '(' || c == ']' || c == '['
  }

  /** The last group of the pattern: `)`, `]` or `[`. */
  predicate ClosesInterval(c: char)
  {
    c == ')' || c == ']' || c == '['
  }

  /** The canonical notation of an interval, as a configuration would write it. */
  function RenderInterval(iv: Interval): string
  {
    [if iv.lowerInclusive then '[' else '(']
      + (BoundString(iv.lower) + "," + BoundString(iv.upper))
      + [if iv.upperInclusive then ']' else ')']
  }

  function BoundString(b: Option<nat>): string
  {
    match b
    case None => ""
    case Some(n) => NatToString(n)
  }

  lemma BoundStringDigits(b: Option<nat>)
    ensures AllDigits(BoundString(b)) && BoundOf(BoundString(b)) == b
  {
    if b.Some? {
      NatToStringCanonical(b.value);
    }
  }

  lemma ParseBoundsOf(lo: string, hi: string)
    requires AllDigits(lo) && AllDigits(hi)
    ensures ParseBounds(lo + "," + hi) == Some((lo, hi))
  {
    var m := lo + "," + hi;
    if lo != [] {
      assert m[0] == lo[0];
    } else {
      assert m[0] == ',';
    }
    assert SpanSpace(m) == 0;
    SpanDigitsOf(lo, "," + hi);
    assert m == lo + ("," + hi);
    assert m[..|lo|] == lo && m[|lo|..] == "," + hi;
    var r4 := hi;
    assert ("," + hi)[1..] == hi;
    if hi != [] {
      assert !IsSpace(hi[0]);
    }
    assert SpanSpace(hi) == 0;
    SpanDigitsOf(hi, "");
    assert hi + "" == hi;
    assert hi[..|hi|] == hi;
  }

  /** An interval written with brackets and digit-string bounds parses to those bounds. */
  lemma ParseIntervalOf(o: char, lo: string, hi: string, c: char)
    requires (o == '(' || o == '[') && (c == ')' || c == ']') && AllDigits(lo) && AllDigits(hi)
    ensures ParseInterval([o] + (lo + "," + hi) + [c]) == Some(Interval(o == '[', BoundOf(lo), BoundOf(hi), c == ']'))
  {
    Bracketed(o, lo + "," + hi, c);
    ParseBoundsOf(lo, hi);
  }

  lemma Bracketed(o: char, m: string, c: char)
    ensures var s := [o] + m + [c];
      |s| >= 2 && s[0] == o && s[|s| - 1] == c && s[1..|s| - 1] == m
  {
  }

  /** Parsing the canonical notation gives the interval back. */
  lemma ParseRenderInterval(iv: Interval)
    ensures ParseInterval(RenderInterval(iv)) == Some(iv)
  {
    BoundStringDigits(iv.lower);
    BoundStringDigits(iv.upper);
    ParseIntervalOf(if iv.lowerInclusive then '[' else '(', BoundString(iv.lower),
      BoundString(iv.upper), if iv.upperInclusive then ']' else ')');
  }

  predicate InInterval(iv: Interval, x: real)
  {
    (match iv.lower
     case None => true
     case Some(lo) => if iv.lowerInclusive then x >= lo as real else x > lo as real)
    && (match iv.upper
        case None => true
        case Some(hi) => if iv.upperInclusive then x <= hi as real else x < hi as real)
  }

  /**
   * `__validator__fl_range` (src/Validator.php:81-123): an array is measured by its
   * count; a non-numeric input, or an interval that does not match the pattern, fails.
   * An interval that is not a string never matches (its string form has no bracket).
   */
  function FlRange(php: Php, v: Value, interval: Value): bool
  {
    var x := if v.Arr? then Int(Count(v)) else v;
    match NumericValue(php, x)
    case None => false
    case Some(r) =>
      interval.Str? &&
      match ParseInterval(interval.s)
      case None => false
      case Some(iv) => InInterval(iv, r)
  }

  /** With an interval string that parses, `fl_range` is membership of the measured value. */
  lemma FlRangeParsed(php: Php, v: Value, s: string, iv: Interval)
    requires ParseInterval(s) == Some(iv)
    ensures FlRange(php, v, Str(s)) <==>
      var x := if v.Arr? then Int(Count(v)) else v;
      NumericValue(php, x).Some? && InInterval(iv, NumericValue(php, x).value)
  {
  }

  /** An interval string that does not parse makes every input fail. */
  lemma FlRangeUnparsed(php: Php, v: Value, interval: Value)
    requires !interval.Str? || ParseInterval(interval.s).None?
    ensures !FlRange(php, v, interval)
  {
  }

  /** With an interval in canonical notation, `fl_range` is membership of the measured value. */
  lemma FlRangeSpec(php: Php, v: Value, iv: Interval)
    ensures FlRange(php, v, Str(RenderInterval(iv))) <==>
      var x := if v.Arr? then Int(Count(v)) else v;
      NumericValue(php, x).Some? && InInterval(iv, NumericValue(php, x).value)
  {
    ParseRenderInterval(iv);
    FlRangeParsed(php, v, RenderInterval(iv), iv);
  }

  /**
   * The interval written "[0,100)" (the notation `RenderInterval` gives `iv`) holds the
   * numbers from 0 up to but not including 100: 0 and 99.9 pass, 100 fails.
   */
  lemma FlRangePercent(php: Php, iv: Interval, x: real, n: int)
    requires iv.lowerInclusive && iv.lower == Some(0) && iv.upper == Some(100) && !iv.upperInclusive
    ensures FlRange(php, Float(x), Str(RenderInterval(iv))) <==> 0.0 <= x < 100.0
    ensures FlRange(php, Int(n), Str(RenderInterval(iv))) <==> 0 <= n < 100
  {
    FlRangeSpec(php, Float(x), iv);
    FlRangeSpec(php, Int(n), iv);
  }

  /** An array is measured by its number of elements. */
  lemma FlRangeCountsArray(php: Php, es: seq<Entry>, interval: Value)
    ensures FlRange(php, Arr(es), interval) == FlRange(php, Int(|es|), interval)
  {
  }

  // ---------------------------------------------------------------------------------
  // strlen

  /** `strlen`; `None` stands for the null PHP 7 returns (with a warning) for an array. */
  function StrlenOf(php: Php, v: Value): Option<nat>
  {
    if v.Arr? then None else Some(|PhpString(php, v)|)
  }

  /** `(int)` of a string of digits: PHP saturates at the largest integer. */
  function IntCast(d: string): (n: nat)
    requires AllDigits(d)
    ensures n <= PHP_INT_MAX
    ensures DigitsValue(d) <= PHP_INT_MAX ==> n == DigitsValue(d)
  {
    if DigitsValue(d) <= PHP_INT_MAX then DigitsValue(d) else PHP_INT_MAX
  }

  /** `^(\d*)\s*\,\s*(\d*)$` (src/Validator.php:169): the two bounds, cast to integers. */
  function ParseLengthRange(s: string): Option<(nat, nat)>
  {
    var lo := s[..SpanDigits(s)];
    var r2 := s[SpanDigits(s)..];
    var r3 := r2[SpanSpace(r2)..];
    if r3 == [] || r3[0] != ',' then None
    else
      var r4 := r3[1..];
      var r5 := r4[SpanSpace(r4)..];
      var hi := r5[..SpanDigits(r5)];
      var rest := r5[SpanDigits(r5)..];
      if rest == "" || rest == "\n" then Some((IntCast(lo), IntCast(hi))) else None
  }

  /**
   * `__validator__strlen` (src/Validator.php:165-186): a numeric interval demands that
   * exact length (compared loosely, so an array, whose length is null, passes only a
   * zero number); otherwise "min,max" with a zero bound left unchecked (for an array,
   * null compares like a length of 0); anything else fails.
   */
  function Strlen(php: Php, v: Value, interval: Value): bool
  {
    match NumericValue(php, interval)
    case Some(x) =>
      (match StrlenOf(php, v)
       case Some(n) => n as real == x
       case None => interval == Int(0) || interval == Float(0.0))
    case None =>
      interval.Str? &&
      match ParseLengthRange(interval.s)
      case None => false
      case Some((lo, hi)) =>
        var n := match StrlenOf(php, v) case Some(n) => n case None => 0;
        (lo == 0 || n >= lo) && (hi == 0 || n <= hi)
  }

  lemma ParseLengthRangeOf(a: string, b: string)
    requires AllDigits(a) && AllDigits(b)
    ensures ParseLengthRange(a + "," + b) == Some((IntCast(a), IntCast(b)))
  {
    var s := a + "," + b;
    SpanDigitsOf(a, "," + b);
    assert s == a + ("," + b);
    assert s[..|a|] == a && s[|a|..] == "," + b;
    assert ("," + b)[1..] == b;
    if b != [] {
      assert !IsSpace(b[0]);
    }
    assert SpanSpace(b) == 0;
    SpanDigitsOf(b, "");
    assert b + "" == b;
    assert b[..|b|] == b && b[|b|..] == "";
  }

  /**
   * "min,max" bounds the length from both sides (each bound cast to an integer); a zero
   * bound is no bound.
   */
  lemma StrlenRangeSpec(php: Php, v: Value, a: string, b: string, n: nat)
    requires AllDigits(a) && AllDigits(b)
    requires php.numeric(a + "," + b) == None
    requires StrlenOf(php, v) == Some(n)
    ensures Strlen(php, v, Str(a + "," + b)) <==>
      (IntCast(a) == 0 || n >= IntCast(a)) && (IntCast(b) == 0 || n <= IntCast(b))
  {
    var s := a + "," + b;
    assert NumericValue(php, Str(s)) == None;
    ParseLengthRangeOf(a, b);
    assert ParseLengthRange(s) == Some((IntCast(a), IntCast(b)));
  }

  /** With "3,8" a string passes when it has 3 to 8 characters: "hello" does, "hi" does not. */
  lemma StrlenThreeToEight(php: Php, t: string)
    requires php.numeric("3,8") == None
    ensures Strlen(php, Str(t), Str("3,8")) <==> 3 <= |t| <= 8
  {
    assert "3" + "," + "8" == "3,8";
    assert DigitsValue("3") == 3 && DigitsValue("8") == 8;
    StrlenRangeSpec(php, Str(t), "3", "8", |t|);
  }

  /** A numeric interval is an exact length. */
  lemma StrlenExactSpec(php: Php, v: Value, interval: Value)
    requires NumericValue(php, interval).Some? && !v.Arr?
    ensures Strlen(php, v, interval) <==> |PhpString(php, v)| as real == NumericValue(php, interval).value
  {
  }

  /** An interval that is neither numeric nor "min,max" fails every value. */
  lemma StrlenUnparsed(php: Php, v: Value, interval: Value)
    requires NumericValue(php, interval).None?
    requires !interval.Str? || ParseLengthRange(interval.s).None?
    ensures !Strlen(php, v, interval)
  {
  }

  // ---------------------------------------------------------------------------------
  // The other built-ins

  /** `__validator__required` (src/Validator.php:162-164), with PHP 7's `count`. */
  predicate Required(v: Value)
  {
    !(v == Null || v == Str("") || Count(v) == 0)
  }

  /** `required` fails exactly for null, the empty string and the empty array. */
  lemma RequiredSpec(v: Value)
    ensures !Required(v) <==> v == Null || v == Str("") || v == Arr([])
  {
  }

  /** `__validator__count` (src/Validator.php:43-45): the parameter is identical to the count. */
  predicate CountRule(v: Value, p: Value)
  {
    p == Int(Count(v))
  }

  /**
   * `count` holds only for an integer parameter equal to the element count: a string "2"
   * or a float 2.0 never passes, a scalar input counts as 1 and null as 0.
   */
  lemma CountRuleSpec(v: Value, p: Value)
    ensures CountRule(v, p) <==> p.Int? && p.i == (if v.Arr? then |v.entries| else if v.Null? then 0 else 1)
    ensures p.Str? || p.Float? ==> !CountRule(v, p)
  {
  }

  /** `__validator__in` (src/Validator.php:147-149): loose membership; a non-array haystack fails. */
  predicate In(php: Php, v: Value, hay: Value)
  {
    hay.Arr? && exists i :: 0 <= i < |hay.entries| && php.looseEq(v, hay.entries[i].val)
  }

  /** `__validator__in_strict` (src/Validator.php:150-152): identical membership. */
  predicate InStrict(v: Value, hay: Value)
  {
    hay.Arr? && v in Values(hay.entries)
  }

  /** Where `==` is reflexive, strict membership implies loose membership. */
  lemma InStrictImpliesIn(php: Php, v: Value, hay: Value)
    requires forall x :: php.looseEq(x, x)
    requires InStrict(v, hay)
    ensures In(php, v, hay)
  {
    var i :| 0 <= i < |hay.entries| && Values(hay.entries)[i] == v;
    assert php.looseEq(v, hay.entries[i].val);
  }

  /**
   * `__validator__int` (src/Validator.php:153-155): the result of `filter_var` is used
   * as the verdict, so a valid integer passes only when it is not 0.
   */
  predicate IntRule(php: Php, v: Value)
  {
    match php.filterInt(v)
    case None => false
    case Some(n) => n != 0
  }

  /** "0" is a valid integer for `filter_var`, yet the `int` validator rejects it. */
  lemma IntRuleRejectsZero(php: Php, v: Value)
    requires php.filterInt(v) == Some(0)
    ensures !IntRule(php, v)
  {
  }

  /** Every other valid integer passes the `int` validator. */
  lemma IntRuleAcceptsNonZero(php: Php, v: Value, n: int)
    requires php.filterInt(v) == Some(n) && n != 0
    ensures IntRule(php, v)
  {
  }

  /**
   * The verdict of the built-in validator `name` (any of them but `array`) on input `v`
   * with parameters `p`, for field `field` of `data`.
   */
  function Builtin(php: Php, name: string, v: Value, p: Value, field: string, data: Value): (ok: bool)
    requires name in BuiltinNames && name != "array"
    ensures name == "required" ==> (ok <==> !(v == Null || v == Str("") || v == Arr([])))
    ensures name == "eq_strict" ==> (ok <==> v == p)
    ensures name == "numeric" ==> (ok <==> NumericValue(php, v).Some?)
    ensures name in LibraryNames ==> ok == php.libraryValidator(name, v, p, field, data)
  {
    if name == "count" then CountRule(v, p)
    else if name == "eq" then php.looseEq(v, p)
    else if name == "eq_strict" then v == p
    else if name == "fl_range" then FlRange(php, v, p)
    else if name == "in" then In(php, v, p)
    else if name == "in_strict" then InStrict(v, p)
    else if name == "int" then IntRule(php, v)
    else if name == "numeric" then NumericValue(php, v).Some?
    else if name == "required" then Required(v)
    else if name == "strlen" then Strlen(php, v, p)
    else php.libraryValidator(name, v, p, field, data)
  }

  /** Where `==` is reflexive on the input, `eq_strict` passing implies `eq` passing. */
  lemma EqStrictImpliesEq(php: Php, v: Value, p: Value, field: string, data: Value)
    requires php.looseEq(v, v)
    requires Builtin(php, "eq_strict", v, p, field, data)
    ensures Builtin(php, "eq", v, p, field, data)
  {
  }

  /** A table of built-in verdicts: rule name, input, params, field id, data. */
  type BuiltinFn = (string, Value, Value, string, Value) -> bool

  /** The built-in validator methods of `Validator`, as a table; other names answer false. */
  function Verdicts(php: Php): BuiltinFn
  {
    (n, v, p, f, d) => if n in BuiltinNames && n != "array" then Builtin(php, n, v, p, f, d) else false
  }

  /** The table answers for every built-in rule but `array` with that rule's verdict. */
  lemma VerdictsAgree(php: Php, n: string, v: Value, p: Value, field: string, data: Value)
    requires n in BuiltinNames && n != "array"
    ensures Verdicts(php)(n, v, p, field, data) == Builtin(php, n, v, p, field, data)
  {
  }
}
