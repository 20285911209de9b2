/**
 * The values the form library handles: PHP scalars and PHP arrays (ordered maps whose
 * keys are integers or non-numeric strings), with the handful of array and string
 * primitives of PHP that the library's code relies on.
 *
 * Integers are unbounded here; the one place where PHP's 64-bit range is visible to the
 * library (an integer cast of a digit string) says so explicitly. Library behaviour that
 * has no closed definition worth writing down (loose comparison, numeric strings, float
 * formatting, global functions, the library-backed validators) is collected in the
 * oracle `Php`, which every operation receives as a parameter.
 */
module PhpValues {

  datatype Option<T> = None | Some(value: T)

  /** A PHP array key. A string key that spells a canonical integer is stored as `IKey`. */
  datatype Key = IKey(i: int) | SKey(s: string)

  /**
   * A PHP value. A PHP string is a sequence of bytes: `Str` holds one `char` per byte, so
   * `|s|` is what `strlen` returns.
   */
  datatype Value =
    | Null
    | Bool(b: bool)
    | Int(i: int)
    | Float(r: real)
    | Str(s: string)
    | Arr(entries: seq<Entry>)

  datatype Entry = Entry(key: Key, val: Value)

  /**
   * What a filter callable does with its argument list: return a value, throw an
   * `Exception`, or raise an `Error` (too few arguments, for instance), which a
   * `catch (\Exception $e)` block does not catch.
   */
  datatype FilterResult = Returned(v: Value) | Threw | Failed

  type FilterFn = seq<Value> -> FilterResult

  /**
   * The PHP runtime behaviour the library uses but does not define.
   *  - looseEq: the `==` operator;
   *  - numeric: `is_numeric` on a string together with its `(float)` value;
   *  - floatToString: string conversion of a float;
   *  - libraryValidator: the validators backed by PHP library calls (email, url, regex,
   *    date, date_after, date_before, imagetype, upload), by name, applied to the input,
   *    the parameters, the field id and the data, as the library passes them;
   *  - filterInt: `filter_var($v, FILTER_VALIDATE_INT)`: the integer, or None for `false`;
   *  - sprintfNull: `sprintf($format, null)` on a message holding a '%' directive;
   *  - callable: `is_callable` on a function name and what calling it does;
   *  - passwordHash: `password_hash` as used by the `encrypt` filter.
   */
  datatype Php = Php(
    looseEq: (Value, Value) -> bool,
    numeric: string -> Option<real>,
    floatToString: real -> string,
    libraryValidator: (string, Value, Value, string, Value) -> bool,
    filterInt: Value -> Option<int>,
    sprintfNull: string -> string,
    callable: string -> Option<FilterFn>,
    passwordHash: (Value, Value) -> Value)

  const PHP_INT_MAX: int := 0x7FFF_FFFF_FFFF_FFFF
  const PHP_INT_MIN: int := -0x8000_0000_0000_0000

  // ---------------------------------------------------------------------------------
  // Digits and decimal strings

  predicate IsDigit(c: char) { '0' <= c <= '9' }

  predicate AllDigits(s: string) { forall i :: 0 <= i < |s| ==> IsDigit(s[i]) }

  function DigitChar(d: nat): (c: char)
    requires d < 10
    ensures IsDigit(c)
  {
    (48 + d) as char
  }

  function DigitValue(c: char): (d: nat)
    requires IsDigit(c)
    ensures d < 10 && DigitChar(d) == c
  {
    c as int - 48
  }

  /** The value of a string of decimal digits (the empty string is 0). */
  function DigitsValue(s: string): nat
    requires AllDigits(s)
  {
    if s == [] then 0 else DigitsValue(s[..|s| - 1]) * 10 + DigitValue(s[|s| - 1])
  }

  /** Decimal notation of a natural number, without leading zeros. */
  function NatToString(n: nat): string
  {
    if n < 10 then [DigitChar(n)] else NatToString(n / 10) + [DigitChar(n % 10)]
  }

  /** Decimal digits without a superfluous leading zero. */
  predicate IsCanonicalNat(s: string)
  {
    |s| > 0 && AllDigits(s) && (s[0] != '0' || |s| == 1)
  }

  /** PHP's decimal string conversion of an integer. */
  function IntToString(i: int): string
  {
    if i < 0 then "-" + NatToString(-i) else NatToString(i)
  }

  lemma {:induction false} NatToStringCanonical(n: nat)
    ensures IsCanonicalNat(NatToString(n)) && DigitsValue(NatToString(n)) == n
  {
    if n >= 10 {
      NatToStringCanonical(n / 10);
      var s := NatToString(n);
      assert s[..|s| - 1] == NatToString(n / 10);
    }
  }

  lemma {:induction false} CanonicalNatRoundTrip(s: string)
    requires IsCanonicalNat(s)
    ensures NatToString(DigitsValue(s)) == s
  {
    if |s| > 1 {
      var p := s[..|s| - 1];
      assert p[0] == s[0];
      CanonicalNatRoundTrip(p);
      DigitsValuePositive(p);
      var d := DigitValue(s[|s| - 1]);
      assert DigitsValue(s) / 10 == DigitsValue(p) && DigitsValue(s) % 10 == d;
      assert s == p + [s[|s| - 1]];
    }
  }

  lemma {:induction false} DigitsValuePositive(s: string)
    requires IsCanonicalNat(s) && s[0] != '0'
    ensures DigitsValue(s) >= 1
  {
    var p := s[..|s| - 1];
    if |s| > 1 {
      assert p[0] == s[0];
      DigitsValuePositive(p);
    } else {
      assert p == [];
    }
  }

  lemma NatToStringInjective(m: nat, n: nat)
    requires NatToString(m) == NatToString(n)
    ensures m == n
  {
    NatToStringCanonical(m);
    NatToStringCanonical(n);
  }

  // ---------------------------------------------------------------------------------
  // Array keys

  /** The string spells an integer exactly as PHP writes it and in PHP's integer range. */
  predicate IsCanonicalInt(s: string)
  {
    if |s| > 0 && s[0] == '-' then
      IsCanonicalNat(s[1..]) && s[1..] != "0" && -(DigitsValue(s[1..]) as int) >= PHP_INT_MIN
    else
      IsCanonicalNat(s) && DigitsValue(s) <= PHP_INT_MAX
  }

  function CanonicalIntValue(s: string): int
    requires IsCanonicalInt(s)
  {
    if |s| > 0 && s[0] == '-' then -(DigitsValue(s[1..]) as int) else DigitsValue(s)
  }

  /** The key under which PHP stores `$a[$s]`. */
  function KeyOfString(s: string): Key
  {
    if IsCanonicalInt(s) then IKey(CanonicalIntValue(s)) else SKey(s)
  }

  /** The key as the string PHP hands to code iterating over the array. */
  function KeyString(k: Key): string
  {
    match k
    case IKey(i) => IntToString(i)
    case SKey(s) => s
  }

  /** The shape PHP maintains: a string key never spells an integer of PHP's range. */
  predicate KeyWellFormed(k: Key)
  {
    match k
    case IKey(i) => PHP_INT_MIN <= i <= PHP_INT_MAX
    case SKey(s) => !IsCanonicalInt(s)
  }

  lemma KeyStringRoundTrip(s: string)
    ensures KeyString(KeyOfString(s)) == s && KeyWellFormed(KeyOfString(s))
  {
    if IsCanonicalInt(s) {
      if |s| > 0 && s[0] == '-' {
        CanonicalNatRoundTrip(s[1..]);
        assert s == "-" + s[1..];
      } else {
        CanonicalNatRoundTrip(s);
      }
    }
  }

  lemma KeyOfStringRoundTrip(k: Key)
    requires KeyWellFormed(k)
    ensures KeyOfString(KeyString(k)) == k
  {
    if k.IKey? {
      var i := k.i;
      if i < 0 {
        NatToStringCanonical(-i);
        var s := IntToString(i);
        assert s[1..] == NatToString(-i);
        assert DigitsValue("0") == 0 by { assert "0"[..0] == []; }
      } else {
        NatToStringCanonical(i);
        var s := IntToString(i);
        assert s[0] != '-' by {
          assert IsDigit(s[0]);
        }
      }
    }
  }

  lemma KeyOfStringInjective(s: string, t: string)
    requires KeyOfString(s) == KeyOfString(t)
    ensures s == t
  {
    KeyStringRoundTrip(s);
    KeyStringRoundTrip(t);
  }

  // ---------------------------------------------------------------------------------
  // White space

  /** PCRE `\s`: space, tab, line feed, vertical tab, form feed, carriage return. */
  predicate IsSpace(c: char)
  {
    c == ' ' || c == '\t' || c == '\n' || c == 11 as char || c == 12 as char || c == '\r'
  }

  /** Length of the longest prefix of `\s` characters. */
  function SpanSpace(s: string): (n: nat)
    ensures n <= |s|
    ensures forall i :: 0 <= i < n ==> IsSpace(s[i])
    ensures n < |s| ==> !IsSpace(s[n])
  {
    if s != [] && IsSpace(s[0]) then 1 + SpanSpace(s[1..]) else 0
  }

  // ---------------------------------------------------------------------------------
  // Arrays

  function Keys(a: seq<Entry>): seq<Key>
  {
    seq(|a|, i requires 0 <= i < |a| => a[i].key)
  }

  function Values(a: seq<Entry>): seq<Value>
  {
    seq(|a|, i requires 0 <= i < |a| => a[i].val)
  }

  ghost predicate DistinctKeys(a: seq<Entry>)
  {
    forall i, j :: 0 <= i < j < |a| ==> a[i].key != a[j].key
  }

  /** Position of the entry with key `k`, if any. */
  function IndexOf(a: seq<Entry>, k: Key): (r: Option<nat>)
    ensures r.Some? ==> r.value < |a| && a[r.value].key == k
    ensures r.Some? ==> forall j :: 0 <= j < r.value ==> a[j].key != k
    ensures r.None? <==> k !in Keys(a)
  {
    if a == [] then None
    else
      assert Keys(a) == [a[0].key] + Keys(a[1..]);
      if a[0].key == k then Some(0)
      else match IndexOf(a[1..], k)
        case None => None
        case Some(i) => Some(i + 1)
  }

  lemma IndexOfAt(a: seq<Entry>, k: Key, i: nat)
    requires i < |a| && a[i].key == k && forall j :: 0 <= j < i ==> a[j].key != k
    ensures IndexOf(a, k) == Some(i)
  {
    assert Keys(a)[i] == k;
  }

  lemma LookupCons(e: Entry, rest: seq<Entry>, k: Key)
    ensures Lookup([e] + rest, k) == if e.key == k then Some(e.val) else Lookup(rest, k)
  {
    assert ([e] + rest)[1..] == rest;
  }

  /** `$a[$k]` when set (null values included). */
  function Lookup(a: seq<Entry>, k: Key): Option<Value>
  {
    match IndexOf(a, k)
    case None => None
    case Some(i) => Some(a[i].val)
  }

  /** `isset($a[$k])`: present and not null. */
  predicate IsSet(a: seq<Entry>, k: Key)
  {
    Lookup(a, k).Some? && Lookup(a, k).value != Null
  }

  /** `$a[$k] = $v`: an existing key keeps its position, a new key goes to the end. */
  function Put(a: seq<Entry>, k: Key, v: Value): (r: seq<Entry>)
    ensures Keys(r) == if k in Keys(a) then Keys(a) else Keys(a) + [k]
    ensures Lookup(r, k) == Some(v)
  {
    match IndexOf(a, k)
    case Some(i) =>
      var r := a[i := Entry(k, v)];
      assert Keys(r) == Keys(a);
      IndexOfAt(r, k, i);
      r
    case None =>
      var r := a + [Entry(k, v)];
      assert Keys(r) == Keys(a) + [k];
      assert forall j :: 0 <= j < |a| ==> a[j].key == Keys(a)[j];
      IndexOfAt(r, k, |a|);
      r
  }

  lemma PutOther(a: seq<Entry>, k: Key, v: Value, k': Key)
    requires k' != k
    ensures Lookup(Put(a, k, v), k') == Lookup(a, k')
  {
    var r := Put(a, k, v);
    match IndexOf(a, k')
    case None =>
      assert k' !in Keys(r);
    case Some(j) =>
      assert r[j] == a[j];
      assert forall i :: 0 <= i < j ==> r[i].key == a[i].key;
  }

  lemma PutDistinct(a: seq<Entry>, k: Key, v: Value)
    requires DistinctKeys(a)
    ensures DistinctKeys(Put(a, k, v))
  {
    var r := Put(a, k, v);
    assert forall i :: 0 <= i < |r| ==> r[i].key == Keys(r)[i];
    assert forall i :: 0 <= i < |a| ==> a[i].key == Keys(a)[i];
  }

  /** `unset($a[$k])`. */
  function Remove(a: seq<Entry>, k: Key): (r: seq<Entry>)
    ensures forall i :: 0 <= i < |r| ==> r[i].key != k && r[i] in a
    ensures |r| <= |a|
  {
    if a == [] then []
    else if a[0].key == k then Remove(a[1..], k)
    else [a[0]] + Remove(a[1..], k)
  }

  lemma RemoveOther(a: seq<Entry>, k: Key, k': Key)
    requires k' != k
    ensures Lookup(Remove(a, k), k') == Lookup(a, k')
  {
    if a != [] {
      RemoveOther(a[1..], k, k');
      LookupCons(a[0], a[1..], k');
      assert a == [a[0]] + a[1..];
      if a[0].key != k {
        LookupCons(a[0], Remove(a[1..], k), k');
      }
    }
  }

  lemma RemoveGone(a: seq<Entry>, k: Key)
    ensures Lookup(Remove(a, k), k) == None
  {
    var r := Remove(a, k);
    assert k !in Keys(r);
  }

  /** The largest integer key, if there is one. */
  function MaxIntKey(a: seq<Entry>): (r: Option<int>)
    ensures forall i :: 0 <= i < |a| && a[i].key.IKey? ==> r.Some? && a[i].key.i <= r.value
  {
    if a == [] then None
    else
      var rest := MaxIntKey(a[1..]);
      if a[0].key.IKey? && (rest.None? || rest.value < a[0].key.i) then Some(a[0].key.i)
      else rest
  }

  /** The key `$a[] = $v` uses: one past the largest integer key, and at least 0. */
  function NextIndex(a: seq<Entry>): (n: int)
    ensures n >= 0 && IKey(n) !in Keys(a)
  {
    var n := match MaxIntKey(a) case None => 0 case Some(m) => if m + 1 < 0 then 0 else m + 1;
    assert forall i :: 0 <= i < |a| ==> Keys(a)[i] != IKey(n);
    n
  }

  /** `$a[] = $v`. */
  function Push(a: seq<Entry>, v: Value): (r: seq<Entry>)
    ensures Keys(r) == Keys(a) + [IKey(NextIndex(a))]
  {
    var r := a + [Entry(IKey(NextIndex(a)), v)];
    assert Keys(r) == Keys(a) + [IKey(NextIndex(a))];
    r
  }

  /** One element of `array_merge`: string keys overwrite, integer keys are renumbered and appended. */
  function MergeEntry(acc: seq<Entry>, e: Entry): seq<Entry>
  {
    if e.key.SKey? then Put(acc, e.key, e.val) else Push(acc, e.val)
  }

  function MergeEntries(acc: seq<Entry>, xs: seq<Entry>): seq<Entry>
  {
    if xs == [] then acc else MergeEntry(MergeEntries(acc, xs[..|xs| - 1]), xs[|xs| - 1])
  }

  /** `array_merge($a, $b)`. */
  function ArrayMerge(a: seq<Entry>, b: seq<Entry>): seq<Entry>
  {
    MergeEntries(MergeEntries([], a), b)
  }

  lemma {:induction false} MergeEntriesKeepsKeys(acc: seq<Entry>, xs: seq<Entry>, k: Key)
    requires k in Keys(acc)
    ensures k in Keys(MergeEntries(acc, xs))
  {
    if xs != [] {
      MergeEntriesKeepsKeys(acc, xs[..|xs| - 1], k);
    }
  }

  /**
   * A string key of the merged-in array ends with the value of its last occurrence there;
   * any other string key keeps what the accumulator had.
   */
  lemma {:induction false} MergeEntriesStringKey(acc: seq<Entry>, xs: seq<Entry>, k: Key)
    requires k.SKey?
    ensures Lookup(MergeEntries(acc, xs), k) ==
      if k in Keys(xs) then Some(LastValue(xs, k)) else Lookup(acc, k)
  {
    if xs != [] {
      var init := xs[..|xs| - 1];
      var e := xs[|xs| - 1];
      MergeEntriesStringKey(acc, init, k);
      var m := MergeEntries(acc, init);
      assert Keys(xs) == Keys(init) + [e.key];
      if e.key.SKey? {
        if e.key != k { PutOther(m, e.key, e.val, k); }
      } else {
        PushOther(m, e.val, k);
      }
    }
  }

  /** A string key looked up in `array_merge($a, $b)`: the last value `$b` gives it, else `$a`'s. */
  lemma ArrayMergeStringKey(a: seq<Entry>, b: seq<Entry>, k: Key)
    requires k.SKey?
    ensures Lookup(ArrayMerge(a, b), k) ==
      if k in Keys(b) then Some(LastValue(b, k))
      else if k in Keys(a) then Some(LastValue(a, k))
      else None
  {
    MergeEntriesStringKey(MergeEntries([], a), b, k);
    MergeEntriesStringKey([], a, k);
    assert Lookup([], k) == None;
  }

  lemma PushOther(a: seq<Entry>, v: Value, k: Key)
    requires k != IKey(NextIndex(a))
    ensures Lookup(Push(a, v), k) == Lookup(a, k)
  {
    var r := Push(a, v);
    match IndexOf(a, k)
    case None =>
      assert k !in Keys(r);
    case Some(j) =>
      assert r[j] == a[j];
      assert forall i :: 0 <= i < j ==> r[i] == a[i];
  }

  /** The value of the last entry with key `k`. */
  function LastValue(xs: seq<Entry>, k: Key): Value
    requires k in Keys(xs)
  {
    var init := xs[..|xs| - 1];
    if xs[|xs| - 1].key == k then xs[|xs| - 1].val
    else (assert Keys(xs) == Keys(init) + [xs[|xs| - 1].key]; LastValue(init, k))
  }

  /**
   * The key PHP uses when a value is written as an array offset: strings as `KeyOfString`,
   * booleans as 0/1, null as "", floats truncated toward zero; an array is an illegal
   * offset (a warning, nothing is written).
   */
  function KeyOfValue(v: Value): Option<Key>
  {
    match v
    case Null => Some(SKey(""))
    case Bool(b) => Some(IKey(if b then 1 else 0))
    case Int(i) => Some(IKey(i))
    case Float(r) => Some(IKey(if r >= 0.0 then r.Floor else -((-r).Floor)))
    case Str(s) => Some(KeyOfString(s))
    case Arr(_) => None
  }

  // ---------------------------------------------------------------------------------
  // Scalars

  predicate IsScalar(v: Value)
  {
    v.Bool? || v.Int? || v.Float? || v.Str?
  }

  /** `$v === ''` or `$v === []`: the inputs the `required` gating treats as empty. */
  predicate IsEmptyInput(v: Value)
  {
    v == Str("") || v == Arr([])
  }

  /** PHP's string conversion (an array converts to "Array", with a notice). */
  function PhpString(php: Php, v: Value): string
  {
    match v
    case Null => ""
    case Bool(b) => if b then "1" else ""
    case Int(i) => IntToString(i)
    case Float(r) => php.floatToString(r)
    case Str(s) => s
    case Arr(_) => "Array"
  }

  /** `count()` as PHP 7 computes it: element count of an array, 0 for null, 1 otherwise. */
  function Count(v: Value): nat
  {
    match v
    case Arr(es) => |es|
    case Null => 0
    case _ => 1
  }

  /** `is_numeric` with the `(float)` value of a numeric operand. */
  function NumericValue(php: Php, v: Value): Option<real>
  {
    match v
    case Int(i) => Some(i as real)
    case Float(r) => Some(r)
    case Str(s) => php.numeric(s)
    case _ => None
  }

  /** ASCII lower-case, as PHP folds method names. */
  function LowerChar(c: char): char
  {
    if 'A' <= c <= 'Z' then (c as int + 32) as char else c
  }

  /** ASCII lower-casing of a whole name. */
  function Lower(s: string): (r: string)
    ensures |r| == |s| && forall i :: 0 <= i < |s| ==> r[i] == LowerChar(s[i])
  {
    seq(|s|, i requires 0 <= i < |s| => LowerChar(s[i]))
  }

  /** The folded name holds no upper-case ASCII letter; every other character stays in place. */
  lemma LowerProps(s: string)
    ensures forall i :: 0 <= i < |s| ==> !('A' <= Lower(s)[i] <= 'Z')
    ensures forall i :: 0 <= i < |s| && !('A' <= s[i] <= 'Z') ==> Lower(s)[i] == s[i]
  {
  }

  /** Folding case twice is folding it once. */
  lemma LowerIdempotent(s: string)
    ensures Lower(Lower(s)) == Lower(s)
  {
    var r := Lower(s);
    assert forall i :: 0 <= i < |r| ==> Lower(r)[i] == r[i];
  }

  /** Names that differ only in the case of ASCII letters fold to the same name. */
  lemma LowerAgrees(s: string, t: string)
    requires |s| == |t| && forall i :: 0 <= i < |s| ==> LowerChar(s[i]) == LowerChar(t[i])
    ensures Lower(s) == Lower(t)
  {
  }
}
