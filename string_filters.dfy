/**
 * The built-in filters of src/Form.php (`__filter__<name>`): `numeric` keeps the digits
 * of a value, `name_of_person` tidies a person's name, `encrypt` hashes its argument.
 * The string transformations are modelled one PHP call at a time; the PCRE patterns
 * they use are simple enough to be written out as recursive functions.
 */
module StringFilters {
  import opened PhpValues

  // ---------------------------------------------------------------------------------
  // numeric: preg_replace('=[^0-9]=', '', $sValue)

  /** The digits of `s`, in order: every other character is replaced by nothing. */
  function KeepDigits(s: string): (r: string)
    ensures |r| <= |s| && AllDigits(r)
  {
    if s == [] then []
    else
      var rest := KeepDigits(s[1..]);
      if IsDigit(s[0]) then [s[0]] + rest else rest
  }

  /** `r` is `s` with some characters taken out (greedy leftmost matching). */
  predicate IsSubsequence(r: string, s: string)
    decreases |s|
  {
    if r == [] then true
    else if s == [] then false
    else if r[0] == s[0] then IsSubsequence(r[1..], s[1..])
    else IsSubsequence(r, s[1..])
  }

  /** The result is obtained from the input by deleting characters only. */
  lemma {:induction false} KeepDigitsSubsequence(s: string)
    ensures IsSubsequence(KeepDigits(s), s)
  {
    if s != [] {
      KeepDigitsSubsequence(s[1..]);
      var rest := KeepDigits(s[1..]);
      if !IsDigit(s[0]) && rest != [] {
        assert rest[0] != s[0];
      }
    }
  }

  /** Every digit of the input is kept, as often as it occurs; nothing else is. */
  lemma {:induction false} KeepDigitsCounts(s: string, c: char)
    ensures multiset(KeepDigits(s))[c] == if IsDigit(c) then multiset(s)[c] else 0
  {
    if s != [] {
      KeepDigitsCounts(s[1..], c);
      assert s == [s[0]] + s[1..];
      assert multiset(s) == multiset{s[0]} + multiset(s[1..]);
    }
  }

  /** Filtering a concatenation filters each part: the digits keep their order. */
  lemma {:induction false} KeepDigitsConcat(a: string, b: string)
    ensures KeepDigits(a + b) == KeepDigits(a) + KeepDigits(b)
  {
    if a == [] {
      assert a + b == b;
    } else {
      assert (a + b)[0] == a[0];
      assert (a + b)[1..] == a[1..] + b;
      KeepDigitsConcat(a[1..], b);
      var head := if IsDigit(a[0]) then [a[0]] else [];
      assert KeepDigits(a + b) == head + KeepDigits(a[1..] + b);
      assert KeepDigits(a) == head + KeepDigits(a[1..]);
    }
  }

  /** A string of digits only is left unchanged. */
  lemma {:induction false} KeepDigitsFixed(s: string)
    requires AllDigits(s)
    ensures KeepDigits(s) == s
  {
    if s != [] {
      assert AllDigits(s[1..]) by {
        assert forall i :: 1 <= i < |s| ==> s[1..][i - 1] == s[i];
      }
      KeepDigitsFixed(s[1..]);
    }
  }

  /** Applying the filter twice is the same as applying it once. */
  lemma KeepDigitsIdempotent(s: string)
    ensures KeepDigits(KeepDigits(s)) == KeepDigits(s)
  {
    KeepDigitsFixed(KeepDigits(s));
  }

  // ---------------------------------------------------------------------------------
  // name_of_person

  /** The characters `trim` strips by default: " \t\n\r\0\x0B". */
  predicate IsTrimChar(c: char)
  {
    c == ' ' || c == '\t' || c == '\n' || c == '\r' || c == 0 as char || c == 11 as char
  }

  /** The delimiters after which `ucwords` upper-cases: " \t\r\n\f\v". */
  predicate IsWordDelimiter(c: char)
  {
    c == ' ' || c == '\t' || c == '\r' || c == '\n' || c == 12 as char || c == 11 as char
  }

  /** The two characters after which `name_of_person` capitalises. */
  predicate IsMark(c: char)
  {
    c == '-' || c == '\''
  }

  predicate IsLowerAscii(c: char) { 'a' <= c <= 'z' }

  predicate IsUpperAscii(c: char) { 'A' <= c <= 'Z' }

  /** ASCII upper-case, as `strtoupper` and `ucwords` compute it. */
  function UpperChar(c: char): (u: char)
    ensures IsLowerAscii(c) ==> IsUpperAscii(u)
    ensures !IsLowerAscii(c) ==> u == c
  {
    if IsLowerAscii(c) then (c as int - 32) as char else c
  }

  /** `ltrim`: leading trim characters removed. */
  function TrimLeft(s: string): (r: string)
    ensures |r| <= |s| && r == s[|s| - |r|..]
    ensures r != [] ==> !IsTrimChar(r[0])
    ensures forall i :: 0 <= i < |s| - |r| ==> IsTrimChar(s[i])
  {
    if s != [] && IsTrimChar(s[0]) then TrimLeft(s[1..]) else s
  }

  /** `rtrim`: trailing trim characters removed. */
  function TrimRight(s: string): (r: string)
    ensures |r| <= |s| && r == s[..|r|]
    ensures r != [] ==> !IsTrimChar(r[|r| - 1])
    ensures forall i :: |r| <= i < |s| ==> IsTrimChar(s[i])
  {
    if s != [] && IsTrimChar(s[|s| - 1]) then TrimRight(s[..|s| - 1]) else s
  }

  /** `trim`. */
  function Trim(s: string): string
  {
    TrimRight(TrimLeft(s))
  }

  /** `ucwords`: the first character and every character after a delimiter upper-cased. */
  function UcWords(s: string): string
  {
    seq(|s|, i requires 0 <= i < |s| => if i == 0 || IsWordDelimiter(s[i - 1]) then UpperChar(s[i]) else s[i])
  }

  /** White space occurs only as single spaces. */
  predicate SpacesCollapsed(r: string)
  {
    forall i :: 0 <= i < |r| && IsSpace(r[i]) ==> r[i] == ' ' && (i + 1 < |r| ==> !IsSpace(r[i + 1]))
  }

  /** No white space directly before or after a hyphen. */
  predicate HyphensTight(r: string)
  {
    forall i :: 0 <= i < |r| && r[i] == '-' ==>
      (i > 0 ==> !IsSpace(r[i - 1])) && (i + 1 < |r| ==> !IsSpace(r[i + 1]))
  }

  /** No white space directly after an apostrophe. */
  predicate ApostrophesTight(r: string)
  {
    forall i :: 0 <= i < |r| - 1 && r[i] == '\'' ==> !IsSpace(r[i + 1])
  }

  /** Every ASCII letter that directly follows a hyphen or an apostrophe is upper-case. */
  predicate MarksCapitalised(r: string)
  {
    forall i :: 1 <= i < |r| && IsMark(r[i - 1]) ==> !IsLowerAscii(r[i])
  }

  lemma SpacesCollapsedSuffix(s: string, k: nat)
    requires k <= |s|
    ensures SpacesCollapsed(s) ==> SpacesCollapsed(s[k..])
  {
    assert forall i :: 0 <= i < |s| - k ==> s[k..][i] == s[k + i];
  }

  lemma HyphensTightSuffix(s: string, k: nat)
    requires k <= |s|
    ensures HyphensTight(s) ==> HyphensTight(s[k..])
  {
    assert forall i :: 0 <= i < |s| - k ==> s[k..][i] == s[k + i];
  }

  lemma SpacesCollapsedCons(c: char, r: string)
    requires SpacesCollapsed(r)
    requires IsSpace(c) ==> c == ' ' && (r == [] || !IsSpace(r[0]))
    ensures SpacesCollapsed([c] + r)
  {
    var s := [c] + r;
    assert forall i :: 1 <= i < |s| ==> s[i] == r[i - 1];
  }

  lemma HyphensTightCons(c: char, r: string)
    requires HyphensTight(r)
    requires c == '-' ==> r == [] || !IsSpace(r[0])
    requires r != [] && r[0] == '-' ==> !IsSpace(c)
    ensures HyphensTight([c] + r)
  {
    var s := [c] + r;
    assert forall i :: 1 <= i < |s| ==> s[i] == r[i - 1];
  }

  lemma ApostrophesTightCons(c: char, r: string)
    requires ApostrophesTight(r)
    requires c == '\'' ==> r == [] || !IsSpace(r[0])
    ensures ApostrophesTight([c] + r)
  {
    var s := [c] + r;
    assert forall i :: 1 <= i < |s| ==> s[i] == r[i - 1];
  }

  /** `preg_replace('=\s+=', ' ', $s)`: every run of white space becomes one space. */
  function CollapseSpaces(s: string): (r: string)
    ensures r != [] <==> s != []
  {
    if s == [] then []
    else if IsSpace(s[0]) then " " + CollapseSpaces(s[SpanSpace(s)..])
    else [s[0]] + CollapseSpaces(s[1..])
  }

  /** After collapsing, white space occurs only as single spaces; the first character keeps its kind. */
  lemma {:induction false} CollapseSpacesProps(s: string)
    ensures SpacesCollapsed(CollapseSpaces(s))
    ensures s != [] ==> (IsSpace(CollapseSpaces(s)[0]) <==> IsSpace(s[0]))
  {
    if s != [] {
      if IsSpace(s[0]) {
        var n := SpanSpace(s);
        CollapseSpacesProps(s[n..]);
        assert n < |s| ==> !IsSpace(s[n..][0]);
      } else {
        CollapseSpacesProps(s[1..]);
      }
    }
  }

  /**
   * `preg_replace('=\s*(\-)\s*=', '$1', $s)`: a hyphen and the white space around it
   * become the hyphen alone. Scanning from the left, a match starts at the first
   * position whose run of white space is followed by a hyphen.
   */
  function JoinHyphens(s: string): (r: string)
    ensures |r| <= |s|
    ensures r != [] <==> s != []
  {
    if s == [] then []
    else
      var n := SpanSpace(s);
      if n < |s| && s[n] == '-' then
        var t := s[n + 1..];
        "-" + JoinHyphens(t[SpanSpace(t)..])
      else [s[0]] + JoinHyphens(s[1..])
  }

  /**
   * The joined string starts with a hyphen exactly when the input's leading white space
   * is followed by one, and otherwise with the input's first character.
   */
  lemma JoinHyphensHead(s: string)
    requires s != []
    ensures var r := JoinHyphens(s);
      (r[0] == '-' <==> SpanSpace(s) < |s| && s[SpanSpace(s)] == '-') && (r[0] != '-' ==> r[0] == s[0])
  {
  }

  /** When a white space character is kept, what follows it does not join to a hyphen. */
  lemma JoinHyphensAfterSpace(s: string)
    requires |s| > 1 && IsSpace(s[0])
    requires !(SpanSpace(s) < |s| && s[SpanSpace(s)] == '-')
    ensures JoinHyphens(s[1..])[0] != '-'
  {
    var t := s[1..];
    assert SpanSpace(s) == 1 + SpanSpace(t);
    if SpanSpace(t) < |t| {
      assert t[SpanSpace(t)] == s[SpanSpace(s)];
    }
    JoinHyphensHead(t);
  }

  /** After joining, no hyphen has white space next to it. */
  lemma {:induction false} JoinHyphensTight(s: string)
    ensures HyphensTight(JoinHyphens(s))
  {
    if s != [] {
      var n := SpanSpace(s);
      if n < |s| && s[n] == '-' {
        var t := s[n + 1..];
        var u := t[SpanSpace(t)..];
        JoinHyphensTight(u);
        assert u != [] ==> !IsSpace(u[0]);
        if u != [] {
          JoinHyphensHead(u);
        }
        HyphensTightCons('-', JoinHyphens(u));
      } else {
        var rest := JoinHyphens(s[1..]);
        JoinHyphensTight(s[1..]);
        if rest != [] && IsSpace(s[0]) {
          JoinHyphensAfterSpace(s);
        }
        HyphensTightCons(s[0], rest);
      }
    }
  }

  /** Joining keeps collapsed white space collapsed. */
  lemma {:induction false} JoinHyphensCollapsed(s: string)
    requires SpacesCollapsed(s)
    ensures SpacesCollapsed(JoinHyphens(s))
  {
    if s != [] {
      var n := SpanSpace(s);
      if n < |s| && s[n] == '-' {
        var t := s[n + 1..];
        var u := t[SpanSpace(t)..];
        assert u == s[n + 1 + SpanSpace(t)..];
        SpacesCollapsedSuffix(s, n + 1 + SpanSpace(t));
        JoinHyphensCollapsed(u);
        SpacesCollapsedCons('-', JoinHyphens(u));
      } else {
        var rest := JoinHyphens(s[1..]);
        SpacesCollapsedSuffix(s, 1);
        JoinHyphensCollapsed(s[1..]);
        if rest != [] {
          JoinHyphensHead(s[1..]);
        }
        SpacesCollapsedCons(s[0], rest);
      }
    }
  }

  /** `preg_replace("=(\')\s*=", '$1', $s)`: white space after an apostrophe is removed. */
  function GlueApostrophes(s: string): (r: string)
    ensures |r| <= |s|
    ensures r != [] <==> s != []
    ensures s != [] ==> r[0] == s[0]
  {
    if s == [] then []
    else if s[0] == '\'' then
      var t := s[1..];
      "'" + GlueApostrophes(t[SpanSpace(t)..])
    else [s[0]] + GlueApostrophes(s[1..])
  }

  /** After gluing, no apostrophe is followed by white space. */
  lemma {:induction false} GlueApostrophesTight(s: string)
    ensures ApostrophesTight(GlueApostrophes(s))
  {
    if s != [] {
      if s[0] == '\'' {
        var t := s[1..];
        var u := t[SpanSpace(t)..];
        GlueApostrophesTight(u);
        assert u != [] ==> !IsSpace(u[0]);
        ApostrophesTightCons('\'', GlueApostrophes(u));
      } else {
        GlueApostrophesTight(s[1..]);
        ApostrophesTightCons(s[0], GlueApostrophes(s[1..]));
      }
    }
  }

  /** Gluing keeps collapsed white space collapsed and hyphens free of white space. */
  lemma {:induction false} GlueApostrophesKeeps(s: string)
    ensures SpacesCollapsed(s) ==> SpacesCollapsed(GlueApostrophes(s))
    ensures HyphensTight(s) ==> HyphensTight(GlueApostrophes(s))
  {
    if s != [] {
      var k := if s[0] == '\'' then 1 + SpanSpace(s[1..]) else 1;
      var u := s[k..];
      assert s[0] == '\'' ==> u == s[1..][SpanSpace(s[1..])..];
      assert s[0] == '\'' ==> (u == [] || !IsSpace(u[0]));
      GlueApostrophesKeeps(u);
      SpacesCollapsedSuffix(s, k);
      HyphensTightSuffix(s, k);
      var rest := GlueApostrophes(u);
      assert GlueApostrophes(s) == [s[0]] + rest;
      if SpacesCollapsed(s) {
        SpacesCollapsedCons(s[0], rest);
      }
      if HyphensTight(s) {
        HyphensTightCons(s[0], rest);
      }
    }
  }

  /**
   * `preg_replace_callback('=[\-\']([a-z])=', strtoupper of the match, $s)`: a lower-case
   * ASCII letter after a hyphen or an apostrophe is upper-cased. The matches are two
   * characters long and end in a letter, so no match can be skipped by the scan.
   */
  function CapitaliseAfterMarks(s: string): string
  {
    seq(|s|, i requires 0 <= i < |s| => if i > 0 && IsMark(s[i - 1]) then UpperChar(s[i]) else s[i])
  }

  /** Upper-casing after the marks changes letters only and leaves the other properties. */
  lemma CapitaliseAfterMarksProps(s: string)
    ensures var r := CapitaliseAfterMarks(s);
      MarksCapitalised(r) &&
      (SpacesCollapsed(s) ==> SpacesCollapsed(r)) &&
      (HyphensTight(s) ==> HyphensTight(r)) &&
      (ApostrophesTight(s) ==> ApostrophesTight(r))
  {
    var r := CapitaliseAfterMarks(s);
    assert forall i :: 0 <= i < |s| ==> (IsSpace(r[i]) <==> IsSpace(s[i]));
    assert forall i :: 0 <= i < |s| ==> (IsMark(r[i]) <==> IsMark(s[i]));
    assert forall i :: 0 <= i < |s| ==> (r[i] == '-' <==> s[i] == '-');
    assert forall i :: 0 <= i < |s| ==> (r[i] == '\'' <==> s[i] == '\'');
  }

  /** `__filter__name_of_person` on a string. */
  function NameOfPerson(s: string): string
  {
    CapitaliseAfterMarks(GlueApostrophes(JoinHyphens(CollapseSpaces(UcWords(Lower(Trim(s)))))))
  }

  /**
   * A tidied name has white space only as single spaces, none next to a hyphen or after
   * an apostrophe, and an upper-case letter after every hyphen and apostrophe.
   */
  lemma NameOfPersonProps(s: string)
    ensures var r := NameOfPerson(s);
      SpacesCollapsed(r) && HyphensTight(r) && ApostrophesTight(r) && MarksCapitalised(r)
  {
    var c := CollapseSpaces(UcWords(Lower(Trim(s))));
    CollapseSpacesProps(UcWords(Lower(Trim(s))));
    JoinHyphensTight(c);
    JoinHyphensCollapsed(c);
    GlueApostrophesTight(JoinHyphens(c));
    GlueApostrophesKeeps(JoinHyphens(c));
    CapitaliseAfterMarksProps(GlueApostrophes(JoinHyphens(c)));
  }

  // ---------------------------------------------------------------------------------
  // The filters on PHP values

  /**
   * `__filter__numeric($sValue)`: `preg_replace` converts a scalar or null to a string;
   * given an array it replaces in every element (converted to a string) and keeps the keys.
   */
  function NumericFilter(php: Php, v: Value): (r: Value)
    ensures !v.Arr? ==> r.Str? && AllDigits(r.s) && r.s == KeepDigits(PhpString(php, v))
    ensures v.Arr? ==> r.Arr? && Keys(r.entries) == Keys(v.entries)
    ensures v.Arr? ==> forall i :: 0 <= i < |r.entries| ==>
      r.entries[i].val == Str(KeepDigits(PhpString(php, v.entries[i].val)))
  {
    match v
    case Arr(es) =>
      var r := Arr(seq(|es|, i requires 0 <= i < |es| => Entry(es[i].key, Str(KeepDigits(PhpString(php, es[i].val))))));
      assert Keys(r.entries) == Keys(es);
      r
    case _ => Str(KeepDigits(PhpString(php, v)))
  }

  /**
   * `__filter__name_of_person($sName)`: `trim` of an array gives null, so every later
   * step works on the empty string.
   */
  function NameOfPersonFilter(php: Php, v: Value): (r: Value)
    ensures r.Str? && SpacesCollapsed(r.s) && HyphensTight(r.s) && ApostrophesTight(r.s) && MarksCapitalised(r.s)
    ensures v.Arr? ==> r == Str("")
  {
    var s := if v.Arr? then "" else PhpString(php, v);
    NameOfPersonProps(s);
    Str(NameOfPerson(s))
  }

  /** The built-in filters: the `__filter__` methods of src/Form.php. */
  datatype BuiltinName = Numeric | Encrypt | NameOfPersonName

  /**
   * The built-in filter `method_exists` finds for `"__filter__" + name`; method names
   * ignore ASCII case.
   */
  function BuiltinOf(name: string): (r: Option<BuiltinName>)
    ensures r.Some? <==> Lower(name) in {"numeric", "encrypt", "name_of_person"}
    ensures r == Some(Numeric) <==> Lower(name) == "numeric"
  {
    var l := Lower(name);
    if l == "numeric" then Some(Numeric)
    else if l == "encrypt" then Some(Encrypt)
    else if l == "name_of_person" then Some(NameOfPersonName)
    else None
  }

  /**
   * Method names ignore ASCII case: a name finds the same built-in filter as its
   * lower-cased form, and as any name that differs from it only in letter case.
   */
  lemma BuiltinOfIgnoresCase(name: string, other: string)
    requires |name| == |other| && forall i :: 0 <= i < |name| ==> LowerChar(name[i]) == LowerChar(other[i])
    ensures BuiltinOf(name) == BuiltinOf(Lower(name))
    ensures BuiltinOf(name) == BuiltinOf(other)
  {
    LowerIdempotent(name);
    LowerAgrees(name, other);
  }

  /**
   * A built-in filter called with the argument list `args`: `encrypt` hashes its first
   * argument with `password_hash` at the strength of its second (4 when absent). Each
   * built-in needs at least one argument; called with none it raises an `ArgumentCountError`.
   */
  function BuiltinFilter(php: Php, b: BuiltinName, args: seq<Value>): (r: FilterResult)
    ensures r.Failed? <==> args == []
    ensures !r.Threw?
    ensures args != [] && b == Numeric ==> r == Returned(NumericFilter(php, args[0]))
    ensures args != [] && b == NameOfPersonName ==> r == Returned(NameOfPersonFilter(php, args[0]))
  {
    if args == [] then Failed
    else
      match b
      case Numeric => Returned(NumericFilter(php, args[0]))
      case NameOfPersonName => Returned(NameOfPersonFilter(php, args[0]))
      case Encrypt => Returned(php.passwordHash(args[0], if |args| >= 2 then args[1] else Int(4)))
  }
}
