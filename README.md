# SimpleForms core in Dafny

This project models the core of SimpleForms, a PHP form library. It has two parts.

The first part is a declarative validator. Each field of the data gets an ordered map of
rules. A rule is a name plus parameters. Rule names may be negated with `!`. Parameters
may refer to other fields through markers of the form `~{path}~`, where the path uses
dot syntax. A rule is skipped on empty input until `required` has been reached. A failure
writes one message to every field the rule invalidates. In quick mode a field stops at
its first failure.

The second part is a form. It reads the submitted data, cuts it down to a whitelist,
merges it onto default values, and checks a CSRF token. It then runs a list of filters
over the data in order. Filters can be PHP callables, custom closures or built-in
filters named `@name`.

PHP values are modelled by `PhpValues.Value`: null, bool, int, float (as `real`), string,
and array. An array is an ordered sequence of entries whose keys are integers or strings.
A string key that spells a canonical integer is stored as an integer key, as PHP does.
PHP behaviour the code calls but does not define is a parameter of type `PhpValues.Php`:

- loose `==`;
- `is_numeric`;
- float-to-string conversion;
- the validators that wrap library calls;
- `filter_var` for integers;
- `sprintf`;
- `is_callable`;
- `password_hash`.

Modules follow the program:

- `PhpValues`: values, keys and PHP's array operations.
- `DotSyntax`: path lookup and update, `ads_get` and `ads_set`.
- `References`: field markers and their resolution.
- `Rules`: the built-in validators of src/Validator.php.
- `Engine`: the rule loop as specification functions.
- `EngineProps`: what the rule loop guarantees.
- `Validation`: class `Validator`, holding the state of src/BaseValidator.php, with methods proved against `Engine`.
- `FormData`: the value-level form pipeline.
- `Forms`: class `Form`, holding the state of src/BaseForm.php.
- `StringFilters`: the filters of src/Form.php.

A validation run is a `Run`, which pairs the error table with a status. The status is
a verdict, or a fault: the exception for an unknown validator, or a reference loop
that does not end.

## Model

| member | source | states |
|---|---|---|
| PhpValues.DigitChar | src/BaseValidator.php:171-179 | a digit below ten is written as a decimal digit character |
| PhpValues.DigitValue | src/BaseValidator.php:171-179 | a digit character's value is below ten and is written back as the same character |
| PhpValues.NatToStringCanonical | src/BaseValidator.php:171-179 | PHP's decimal form of a natural number has no superfluous leading zero and reads back as that number |
| PhpValues.CanonicalNatRoundTrip | src/BaseValidator.php:171-179 | a canonical digit string is the decimal form of its own value |
| PhpValues.DigitsValuePositive | src/BaseValidator.php:171-179 | a canonical digit string that does not start with 0 has a value of at least 1 |
| PhpValues.NatToStringInjective | src/BaseValidator.php:171-179 | distinct numbers have distinct decimal forms |
| PhpValues.KeyStringRoundTrip | src/BaseValidator.php:179 | a string used as an array key comes back unchanged when the array is iterated, and the stored key is well formed |
| PhpValues.KeyOfStringRoundTrip | src/BaseValidator.php:179 | a well-formed key, iterated and used again as a key, is the same key |
| PhpValues.KeyOfStringInjective | src/BaseValidator.php:179 | distinct strings are stored under distinct keys |
| PhpValues.SpanSpace | src/Form.php:18 | the leading run of `\s` characters: all white space, and followed by a non-space or the end |
| PhpValues.IndexOf | src/BaseValidator.php:258 | the position of the first entry with the key, or None exactly when the key is absent |
| PhpValues.IndexOfAt | src/BaseValidator.php:258 | the first entry with the key is the one found |
| PhpValues.LookupCons | src/BaseValidator.php:258 | lookup in a non-empty array checks the first entry, then the rest |
| PhpValues.Put | src/BaseValidator.php:179 | `$a[$k] = $v`: an existing key keeps its place, a new key goes last, and the key then holds `v` |
| PhpValues.PutOther | src/BaseValidator.php:179 | writing one key leaves every other key's value unchanged |
| PhpValues.PutDistinct | src/BaseValidator.php:179 | writing keeps the keys distinct |
| PhpValues.Remove | src/BaseValidator.php:348 | `unset`: what is left comes from the array and lacks the key |
| PhpValues.RemoveOther | src/BaseValidator.php:348 | `unset` of one key leaves every other key's value unchanged |
| PhpValues.RemoveGone | src/BaseValidator.php:348 | after `unset` the key reads as absent |
| PhpValues.MaxIntKey | src/BaseValidator.php:273 | an upper bound of every integer key |
| PhpValues.NextIndex | src/BaseValidator.php:273 | the key that `$a[] = $v` uses is non-negative and not yet in use |
| PhpValues.Push | src/BaseValidator.php:273 | `$a[] = $v` appends exactly one new key, at the end |
| PhpValues.PushOther | src/BaseValidator.php:273 | appending leaves the value of every existing key unchanged |
| PhpValues.MergeEntriesKeepsKeys | src/BaseValidator.php:86-89 | `array_merge` loses no key of the first array |
| PhpValues.MergeEntriesStringKey | src/BaseValidator.php:86-89 | a string key ends with its last value in the merged-in array, or keeps what it had |
| PhpValues.ArrayMergeStringKey | src/BaseValidator.php:109 | in `array_merge($a, $b)` a string key takes `$b`'s last value if there is one, else `$a`'s |
| PhpValues.LowerProps | src/BaseValidator.php:232 | method-name case folding leaves no upper-case ASCII letter and keeps every character that is not one |
| PhpValues.LowerIdempotent | src/BaseValidator.php:232 | folding a folded name changes nothing |
| PhpValues.LowerAgrees | src/BaseValidator.php:232 | two names that differ only in ASCII case fold to the same name |
| DotSyntax.Split | src/BaseValidator.php:119 | a dot path splits into at least one segment, and no segment holds a dot |
| DotSyntax.JoinSplit | src/BaseValidator.php:119 | joining the segments with dots gives the path back |
| DotSyntax.SplitPrefix | src/BaseValidator.php:119 | a dot-free prefix joins the first segment |
| DotSyntax.SplitJoin | src/BaseValidator.php:119 | dot-free segments joined with dots split back into the same segments |
| DotSyntax.AdsSet | src/BaseForm.php:864 | writing a path always leaves an array |
| DotSyntax.GetSetPath | src/BaseForm.php:864 | reading back a path just written gives the value written, with missing levels created |
| DotSyntax.ChildOther | src/BaseForm.php:864 | writing under one key leaves the level under any other key unchanged |
| DotSyntax.ChildSame | src/BaseForm.php:864 | writing under a key and reading it back gives the level written |
| DotSyntax.SetPathFrame | src/BaseForm.php:864 | writing a path leaves every path that branches off it unchanged |
| DotSyntax.AdsGetSet | src/BaseForm.php:864 | `ads_get` after `ads_set` on the same path gives the value written |
| DotSyntax.AdsSetFrame | src/BaseForm.php:864 | a write leaves every field under a different first segment unchanged |
| DotSyntax.AdsSetTopLevel | src/BaseForm.php:864 | at the top level a write changes only the key of the path's first segment |
| References.Mask | src/BaseValidator.php:358-360 | the marker of a field id is `~{`, the id, `}~` |
| References.CloseFromSpec | src/BaseValidator.php:51 | the scan for `}~` finds the lazy match of `~\{(.+?)\}~`, or shows that there is none |
| References.MatchAtSpec | src/BaseValidator.php:51 | a marker is found at a position exactly when the pattern matches there |
| References.FindFromSpec | src/BaseValidator.php:51 | the leftmost match at or after a position, or none there |
| References.FindMarker | src/BaseValidator.php:203 | a match found by `preg_match` lies inside the string and has non-empty content |
| References.FindMarkerSpec | src/BaseValidator.php:203 | `preg_match` finds the leftmost match of the pattern, and finds none exactly when there is no match |
| References.MarkerUnique | src/BaseValidator.php:51 | the lazy match from one opening has a single closing |
| References.FindMarkerUnique | src/BaseValidator.php:203 | a match with no earlier match is the one `preg_match` reports |
| References.MaskFound | src/BaseValidator.php:358-360 | the marker of an id is found as the whole string, with the id as its content |
| References.StrReplaceFirst | src/BaseValidator.php:210 | `str_replace` keeps the text before the first occurrence and puts the replacement in its place |
| References.StrReplaceAbsent | src/BaseValidator.php:210 | `str_replace` leaves a string without the pattern unchanged |
| References.ResolveNoMarker | src/BaseValidator.php:203-214 | a string without a marker resolves to itself |
| References.ResolveWholeMarker | src/BaseValidator.php:207-212 | a string that is exactly a marker resolves to the referenced value, whatever its type; a string value is scanned in turn |
| References.ResolvePartialStep | src/BaseValidator.php:207-210 | a marker inside a longer string is replaced by the string form of the referenced value, with the text before it kept |
| References.ResolvedStringHasNoMarker | src/BaseValidator.php:203-214 | a string that comes out of resolution holds no marker |
| References.ResolveStringIdempotent | src/BaseValidator.php:203-214 | resolving the resolved string again changes nothing |
| References.ResolveKeepsKeys | src/BaseValidator.php:196-200 | resolving an array gives an array with the same keys in the same order |
| References.SelfReferenceDiverges | src/BaseValidator.php:203-214 | for any field id that can sit in a marker, a field whose value is its own marker makes the rewrite loop run until the bound, reported as a fault |
| References.ResolveStringStop | src/BaseValidator.php:203 | the loop stops with the string when no marker is left, and with a fault when the rounds are used up |
| References.ResolveStringStep | src/BaseValidator.php:204-213 | one round of the loop: a partial marker is replaced in the text, and a whole marker is replaced by the value |
| References.DecipherString | src/BaseValidator.php:203-214 | the `while` loop computes the resolution of the string |
| References.RewriteRound | src/BaseValidator.php:204-213 | one loop body either ends with the resolution or rewrites the string to one with the same resolution |
| References.DecipherMaskedFieldReferences | src/BaseValidator.php:190-216 | resolves strings, recurses into arrays, and leaves other values unchanged, as the specification function does |
| References.DecipherArray | src/BaseValidator.php:196-200 | the `foreach` resolves every element in place, keys kept |
| Rules.ParseBoundsOf | src/Validator.php:89-91 | the middle of the interval pattern captures the two digit strings around the comma |
| Rules.ParseIntervalOf | src/Validator.php:89-91 | `[` or `(`, digit bounds and `]` or `)` parse to the bounds, inclusive exactly for `[` and `]` |
| Rules.ParseRenderInterval | src/Validator.php:89-91 | every interval, in its canonical notation, parses back to itself |
| Rules.FlRangeParsed | src/Validator.php:81-123 | with a parsed interval, `fl_range` holds exactly when the number or the array's count is numeric and lies inside |
| Rules.FlRangeUnparsed | src/Validator.php:119-121 | an interval that does not match the pattern fails every input instead of raising |
| Rules.FlRangeSpec | src/Validator.php:92-118 | `fl_range` is membership of the measured value in the interval: `[` and `]` inclusive, `(`, `)` and the reversed brackets exclusive, an empty bound unbounded |
| Rules.FlRangePercent | src/Validator.php:92-118 | the interval `[0,100)` accepts exactly the numbers from 0 up to, but not including, 100 |
| Rules.FlRangeCountsArray | src/Validator.php:82-84 | an array is measured by its element count |
| Rules.IntCast | src/Validator.php:170 | `(int)` of a digit string is its value, saturated at PHP's largest integer |
| Rules.ParseLengthRangeOf | src/Validator.php:169-176 | `"a,b"` with digit bounds parses to the two bounds cast to integers |
| Rules.StrlenRangeSpec | src/Validator.php:169-185 | `"min,max"` bounds the length in bytes on both sides, and a zero bound is not checked |
| Rules.StrlenThreeToEight | src/Validator.php:169-185 | with `"3,8"` a string passes exactly when it has 3 to 8 bytes |
| Rules.StrlenExactSpec | src/Validator.php:166-167 | a numeric interval requires exactly that many bytes |
| Rules.StrlenUnparsed | src/Validator.php:165-185 | an interval that is neither numeric nor `"min,max"` fails every value |
| Rules.RequiredSpec | src/Validator.php:162-164 | `required` fails exactly for null, `''` and the empty array |
| Rules.CountRuleSpec | src/Validator.php:43-45 | `count` holds exactly for an integer parameter equal to the count; a string or float parameter never passes |
| Rules.InStrictImpliesIn | src/Validator.php:147-152 | where `==` is reflexive, `in_strict` passing implies `in` passing |
| Rules.IntRuleRejectsZero | src/Validator.php:153-155 | the integer 0, though valid for `filter_var`, fails `int`, because the result is used as the verdict |
| Rules.IntRuleAcceptsNonZero | src/Validator.php:153-155 | every other valid integer passes `int` |
| Rules.Builtin | src/Validator.php:43-186 | the built-in verdict: `required`, `eq_strict` and `numeric` as stated, and the library-backed rules as the library decides |
| Rules.EqStrictImpliesEq | src/Validator.php:75-80 | where `==` is reflexive on the input, `eq_strict` passing implies `eq` passing |
| Rules.VerdictsAgree | src/BaseValidator.php:232-234 | the table of built-in methods answers every built-in name but `array` with that rule's verdict |
| Engine.DedupSpec | src/BaseValidator.php:179 | first-occurrence order holds every name once and no other |
| Engine.NormalizeKeys | src/BaseValidator.php:169-182 | the normalised rule names are the declared names, each once, in order of first occurrence; an integer key makes its value the name |
| Engine.NormalizeParams | src/BaseValidator.php:169-182 | each normalised rule carries the params of its last declaration, and null for one declared under an integer key |
| Engine.MergeFieldRule | src/BaseValidator.php:81-91 | after `add_validators` a newly declared rule takes its new params, and every existing rule is kept |
| Engine.MergeFieldOther | src/BaseValidator.php:81-91 | adding rules to one field leaves every other field's rules unchanged |
| Engine.Targets | src/BaseValidator.php:285-288 | a failure is reported to at least one field |
| Engine.InvalidatesSpec | src/BaseValidator.php:341-351 | a set `invalidates` is never iterated as a rule; a scalar is wrapped; absent, null or empty means the field itself |
| Engine.RuleEntriesOther | src/BaseValidator.php:341-351 | every rule but `invalidates` keeps its own params |
| Engine.StripBang | src/BaseValidator.php:307 | `str_replace('!', '')` leaves no `!`, changes a string without one not at all, and shortens one with one |
| Engine.StripBangCounts | src/BaseValidator.php:307 | every character other than `!` is kept as often as it occurs |
| Engine.StripBangConcat | src/BaseValidator.php:307 | stripping a concatenation strips each part, so the kept characters keep their order |
| Engine.RequiredUpToStep | src/BaseValidator.php:297-299 | the required flag is set once a rule named `required` is reached, and stays set |
| Engine.AppendError | src/BaseValidator.php:273 | `_aErrors[$field][]` appends one message at the end of that field's list and keeps every key |
| Engine.AppendErrorOther | src/BaseValidator.php:273 | appending to one field leaves every other field's list unchanged |
| Engine.InsertErrorsCount | src/BaseValidator.php:324-326 | each failure adds exactly one message per target to each target's list |
| Engine.InsertErrorsKeys | src/BaseValidator.php:324-326 | storing messages never removes a field from the error table |
| Engine.InsertErrorsStatus | src/BaseValidator.php:324-326 | whether the messages can be composed does not depend on the error table |
| Engine.ComposeInputScalar | src/BaseValidator.php:265-271 | for a scalar input, the template `~{INPUT}~` becomes the input's string form, formatted, whatever the data holds |
| Engine.ComposeInputNonScalar | src/BaseValidator.php:265-271 | for a null or array input nothing is substituted: `~{INPUT}~` is resolved as a reference to the data field `INPUT` |
| Engine.ComposePlain | src/BaseValidator.php:265-273 | a template without markers and without `%`, for a non-scalar input, is stored as written |
| Engine.MessagePrecedence | src/BaseValidator.php:257-263 | the message is looked up as `"<field>.<rule>"`, then `"<rule>"`, and falls back to the literal `"<field>.<rule>"` |
| Engine.ValidateFromStep | src/BaseValidator.php:118-121 | `_validate` validates the next field and goes on with its table, unless a fault stops it |
| EngineProps.FieldRunFacts | src/BaseValidator.php:283-334 | a field's outcome does not depend on the error table, and validation never drops a key from it |
| EngineProps.RuleLoopFacts | src/BaseValidator.php:296-332 | the same for the rule loop from any rule on |
| EngineProps.EvaluateFacts | src/BaseValidator.php:307-318 | the same for one rule, negation included |
| EngineProps.ExecuteFacts | src/BaseValidator.php:226-247 | the same for one dispatch |
| EngineProps.ArrayRuleFacts | src/Validator.php:27-42 | the same for the `array` rule |
| EngineProps.ElementLoopFacts | src/Validator.php:32-40 | the same for the element loop of the `array` rule |
| EngineProps.ElementLoopUnfold | src/Validator.php:32-40 | one round of the element loop validates the element, then goes on |
| EngineProps.RuleLoopNext | src/BaseValidator.php:301-331 | a gated or passing rule keeps the verdict; a failing one makes it false and, in quick mode, ends the loop |
| EngineProps.NoneFailFromAll | src/BaseValidator.php:301-304 | no evaluated rule fails exactly when every ungated rule passes |
| EngineProps.RuleLoopOutcome | src/BaseValidator.php:295-333 | a completed loop is valid exactly when it started valid and no evaluated rule failed |
| EngineProps.FieldOutcome | src/BaseValidator.php:283-334 | a field is valid exactly when none of its evaluated rules failed |
| EngineProps.RequiredUpToPrefix | src/BaseValidator.php:297-299 | whether `required` has been reached depends only on the rules so far |
| EngineProps.PrefixAgrees | src/BaseValidator.php:301-304 | a prefix of the rules gates each of its rules as the whole list does |
| EngineProps.RuleLoopStep | src/BaseValidator.php:301-331 | two rule lists that agree at a rule take the same step there |
| EngineProps.QuickPrefix | src/BaseValidator.php:327-330 | in quick mode the loop runs as it would over the rules up to the first failure |
| EngineProps.QuickStopsAtFailure | src/BaseValidator.php:327-330 | in quick mode no rule after an evaluated failing rule is evaluated |
| EngineProps.EmptyOptionalLoop | src/BaseValidator.php:301-304 | on empty input without `required`, the loop evaluates nothing and changes nothing |
| EngineProps.EmptyOptionalField | src/BaseValidator.php:301-304 | an empty input (`''` or `[]`) without a `required` rule passes with no message |
| EngineProps.RequiredUngates | src/BaseValidator.php:297-304 | from the first `required` rule on, every rule is evaluated |
| EngineProps.NegationOnce | src/BaseValidator.php:307-318 | any number of `!` is removed before dispatch, the verdict is inverted once, and the message name is `!` plus the stripped name |
| EngineProps.NegationCollapses | src/BaseValidator.php:307-318 | `!!eq`, `e!q` and `!eq` are the same rule |
| EngineProps.BuiltinPrecedence | src/BaseValidator.php:231-234 | a built-in validator is used even when a custom validator has the same name |
| EngineProps.CustomDispatch | src/BaseValidator.php:237-239 | a callable custom validator decides a name that is not built in, with the resolved params |
| EngineProps.UnknownRaises | src/BaseValidator.php:240-245 | a name that is neither built in nor a callable custom validator raises |
| EngineProps.ArrayRuleNonArray | src/Validator.php:27-30 | the `array` rule passes null and fails every other value that is not an array |
| EngineProps.ElementLoopStep | src/Validator.php:32-40 | one element round, with the element's outcome taken independently of the table |
| EngineProps.ElementLoopAllDone | src/Validator.php:32-40 | a completed element loop validated every element to the end |
| EngineProps.ElementLoopOutcome | src/Validator.php:32-40 | a completed element loop holds exactly when it started true and every element passed |
| EngineProps.ArrayRuleOutcome | src/Validator.php:27-42 | on an array the rule visits every element, quick mode included, with its params as the element's rules, and holds exactly when all pass |
| EngineProps.ValidateKeys | src/BaseValidator.php:116-123 | validation never removes a field from the error table it starts from |
| Validation.Validator.constructor | src/BaseValidator.php:13-49 | the initial state: not validated, not quick, no rules, errors or custom validators, and the default messages of src/Validator.php |
| Validation.Validator.SetQuick | src/BaseValidator.php:58-60 | sets the quick flag |
| Validation.Validator.NormalizeCnfgArr | src/BaseValidator.php:169-182 | the loop computes the normalised rule map |
| Validation.Validator.AddValidators | src/BaseValidator.php:81-91 | merges the normalised rules into each field's rule map |
| Validation.Validator.GetErrors | src/BaseValidator.php:97-99 | returns the error table as it is, without validating |
| Validation.Validator.AddErrorMessages | src/BaseValidator.php:108-110 | `array_merge`s the new messages onto the pool |
| Validation.Validator.AddCustomValidator | src/BaseValidator.php:141-143 | stores the callback under the name |
| Validation.Validator.SetData | src/BaseValidator.php:149-152 | stores the data and marks it as not validated |
| Validation.Validator.GetData | src/BaseValidator.php:158-160 | returns the data |
| Validation.Validator.ExtractInvalidatedFields | src/BaseValidator.php:341-351 | returns the targets and the rule map without a set `invalidates` |
| Validation.Validator.InsertErrorMessage | src/BaseValidator.php:255-274 | appends the composed message for one target, or reports a reference loop with the table unchanged |
| Validation.Validator.ReportFailure | src/BaseValidator.php:324-326 | appends one message per target, as the specification does |
| Validation.Validator.EvaluateRule | src/BaseValidator.php:307-318 | dispatches without the `!`s and inverts the verdict when negated |
| Validation.Validator.RuleStep | src/BaseValidator.php:297-331 | one loop round ends the field or goes on with the verdict the specification gives |
| Validation.Validator.ValidateSingleField | src/BaseValidator.php:283-334 | the rule loop computes the field's run |
| Validation.Validator.ExecuteValidator | src/BaseValidator.php:226-247 | resolves the params, then dispatches to a built-in, a custom validator, or the exception |
| Validation.Validator.ValidatorArray | src/Validator.php:27-42 | the element loop computes the `array` rule's run |
| Validation.Validator.Validate | src/BaseValidator.php:116-123 | clears the table, validates every field in order, and marks the data validated unless a fault stops it |
| Validation.Validator.IsValid | src/BaseValidator.php:129-134 | validates only data not yet validated, and is true exactly when the error table is empty |
| FormData.MergeOneKeys | src/BaseForm.php:772-782 | one merge round keeps every key in place and adds only its own key or an appended integer key |
| FormData.MergeRecursiveKeys | src/BaseForm.php:770-784 | every key of the first array survives, in place; any new key comes from the second array or is appended |
| FormData.MergeRecursiveOther | src/BaseForm.php:771 | a key of the first array that the second lacks keeps its value |
| FormData.MergeOneAt | src/BaseForm.php:773-780 | a non-numeric key takes the merged value |
| FormData.MergeRecursiveStringKey | src/BaseForm.php:773-781 | a non-numeric key takes the second array's value, merged recursively when both are arrays, and else keeps the first array's |
| FormData.MergeOneNumeric | src/BaseForm.php:775-778 | a numeric key's value is appended under a new key exactly when `in_array` does not find it |
| FormData.MergeRecursiveEmpty | src/BaseForm.php:770-784 | merging in an empty array returns the first array |
| FormData.AllowedKeys | src/BaseForm.php:500 | `array_flip` of the whitelist: exactly the keys its string and integer values give |
| FormData.KeepKeys | src/BaseForm.php:500 | `array_intersect_key` keeps only entries of the data with a listed key |
| FormData.KeepKeysLookup | src/BaseForm.php:500 | a listed key keeps its value and any other key reads as absent |
| FormData.KeepKeysDistinct | src/BaseForm.php:500 | cutting down keeps the keys distinct |
| FormData.RawFormDataKeepsDefaults | src/BaseForm.php:504 | every default key is in the raw form data, in place |
| FormData.RawFormDataLookup | src/BaseForm.php:494-504 | a non-numeric field takes its submitted value when the whitelist allows it, merged with an array default, and else its default |
| FormData.CheckToken | src/BaseForm.php:791-800 | true exactly when the token is `false` or identical to the submitted token field |
| FormData.StripSecurityKeys | src/BaseForm.php:646-651 | the result lacks the token and submitted keys and holds only entries of the data |
| FormData.StripSecurityKeysLookup | src/BaseForm.php:646-651 | exactly the two security fields disappear, and every other field reads as before |
| FormData.Fetch | src/BaseForm.php:515-525 | a null key gives all the data; otherwise the field's value when it is set, else null |
| FormData.ParamsOf | src/BaseForm.php:307-314 | null params become the field's own marker, an array stays, and a scalar becomes a one-element list |
| FormData.FieldFilters | src/BaseForm.php:305-319 | one filter per normalised action |
| FormData.FieldFiltersAt | src/BaseForm.php:305-319 | the j-th filter calls the j-th action on the field with that action's params |
| FormData.FiltersOfStep | src/BaseForm.php:296-320 | each field's filters are appended after those of the fields before it |
| FormData.SingleNameFilter | src/BaseForm.php:297-318 | a field whose action is one filter name gets one filter, on its own value |
| FormData.MaskedFieldReference | src/BaseForm.php:838 | a parameter names a path only when it is exactly that path's marker |
| FormData.MaskedFieldReferenceOfMask | src/BaseForm.php:838 | the marker of a field is recognised as naming that field |
| FormData.ResolveParams | src/BaseForm.php:837-841 | resolving the parameters keeps their keys |
| FormData.ResolveParamsPlain | src/BaseForm.php:837-841 | parameters without an exact marker pass unchanged |
| FormData.DefaultParamIsOwnValue | src/BaseForm.php:838-839 | the default parameter is the field's current filtered value |
| FormData.MaskedFilterReferenceOfName | src/BaseForm.php:876-882 | `"@" + name` unmasks to `name` exactly when the pattern's `(.+?)$` accepts `name` (a non-empty line, optionally ending in one line feed), and to false otherwise |
| FormData.MaskedFilterReferenceRemask | src/BaseForm.php:876-882 | a key that unmasks to a name is `"@"` followed by that name |
| FormData.FilterCallee | src/BaseForm.php:844-857 | a PHP callable is called first; else `@name` picks the custom filter, then the built-in one |
| FormData.BareNameIsNotBuiltin | src/BaseForm.php:846-855 | a bare name that is not a PHP callable never reaches a built-in filter |
| FormData.ExecFilter | src/BaseForm.php:835-868 | no callee or an exception leaves the data unchanged, a returned value is written at the field's path, and an `Error` halts |
| FormData.ExecFilterFrame | src/BaseForm.php:864 | a filter writes only under the first segment of its field's path |
| FormData.FilterFromUnresolved | src/BaseForm.php:632-638 | when no filter can be resolved, filtering gives back the data |
| FormData.FilterFromFrame | src/BaseForm.php:632-638 | filtering writes only under the filtered fields' first segments |
| FormData.FilterFromAppend | src/BaseForm.php:632-638 | an appended filter runs on what the others left |
| Forms.Setting | src/BaseForm.php:229 | `isset($aSettings[$name])`, with the value stored there |
| Forms.CollectFilters | src/BaseForm.php:296-320 | the nested loops compute every field's filters in declaration order |
| Forms.CollectFieldFilters | src/BaseForm.php:305-319 | the inner loop computes one field's filters |
| Forms.ArrayMergeRecursiveEx | src/BaseForm.php:770-784 | the loop over a local copy computes the recursive merge |
| Forms.ReadRawFormData | src/BaseForm.php:494-504 | copies a non-empty submitted array, cuts it to the whitelist when there is one, and merges it onto the defaults |
| Forms.Form.constructor | src/BaseForm.php:227-247 | whitelists the security fields and the `whitelist` setting, takes the token and defaults, reads the raw data, copies it to the filtered data, and adds the filters |
| Forms.Form.AddCustomFilterFunctions | src/BaseForm.php:258-260 | later custom filters of the same name replace earlier ones |
| Forms.Form.AddDefaultValues | src/BaseForm.php:267-269 | merges the new values recursively onto the defaults |
| Forms.Form.AddWhitelistedFields | src/BaseForm.php:328-335 | wraps a scalar and appends with `array_merge`, keeping duplicates, and returns the whitelist |
| Forms.Form.AddFilters | src/BaseForm.php:293-321 | appends every declared filter after the existing ones |
| Forms.Form.GetRawFormData | src/BaseForm.php:472-508 | the raw form data for the submitted value |
| Forms.Form.SetSubmitMethod | src/BaseForm.php:747-752 | accepts exactly a method loosely equal to `"POST"` or `"GET"`, and leaves the setting unchanged otherwise |
| Forms.Form.ExecuteFilter | src/BaseForm.php:835-868 | resolves the params, calls the callee and writes the result as the specification gives |
| Forms.Form.Filter | src/BaseForm.php:629-639 | starts from the raw data and runs every filter in order, keeping the list, so a second call gives the same data |
| StringFilters.KeepDigits | src/Form.php:10 | the output is no longer than the input and holds only digits |
| StringFilters.KeepDigitsSubsequence | src/Form.php:10 | the output is the input with characters deleted |
| StringFilters.KeepDigitsCounts | src/Form.php:10 | every digit is kept as often as it occurs, and nothing else is |
| StringFilters.KeepDigitsConcat | src/Form.php:10 | filtering a concatenation filters each part, so the digits keep their order |
| StringFilters.KeepDigitsFixed | src/Form.php:10 | an all-digit string is unchanged |
| StringFilters.KeepDigitsIdempotent | src/Form.php:10 | filtering twice is the same as filtering once |
| StringFilters.UpperChar | src/Form.php:25 | `strtoupper` upper-cases a lower-case ASCII letter and keeps every other character |
| StringFilters.TrimLeft | src/Form.php:16 | `ltrim` removes exactly the leading trim characters |
| StringFilters.TrimRight | src/Form.php:16 | `rtrim` removes exactly the trailing trim characters |
| StringFilters.CollapseSpaces | src/Form.php:18 | collapsing white space leaves the string non-empty exactly when it was |
| StringFilters.CollapseSpacesProps | src/Form.php:18 | after collapsing, white space occurs only as single spaces |
| StringFilters.JoinHyphens | src/Form.php:20 | joining hyphens never lengthens the string and keeps it non-empty |
| StringFilters.JoinHyphensHead | src/Form.php:20 | the joined string starts with a hyphen exactly when the input's leading white space precedes one |
| StringFilters.JoinHyphensAfterSpace | src/Form.php:20 | a kept white space character is not followed by a joined hyphen |
| StringFilters.JoinHyphensTight | src/Form.php:20 | after joining, no hyphen has white space next to it |
| StringFilters.JoinHyphensCollapsed | src/Form.php:20 | joining keeps collapsed white space collapsed |
| StringFilters.GlueApostrophes | src/Form.php:22 | gluing never lengthens the string and keeps its first character |
| StringFilters.GlueApostrophesTight | src/Form.php:22 | after gluing, no apostrophe is followed by white space |
| StringFilters.GlueApostrophesKeeps | src/Form.php:22 | gluing keeps collapsed white space and tight hyphens |
| StringFilters.CapitaliseAfterMarksProps | src/Form.php:24-26 | a lower-case ASCII letter after `-` or `'` is upper-cased, and the other properties stay |
| StringFilters.NameOfPersonProps | src/Form.php:15-28 | a tidied name has white space only as single spaces, none next to `-` or after `'`, and an upper-case letter after every `-` and `'` |
| StringFilters.NumericFilter | src/Form.php:9-11 | a scalar becomes the digits of its string form; an array keeps its keys and each element is filtered |
| StringFilters.NameOfPersonFilter | src/Form.php:15-28 | the output has the tidied-name properties, and an array gives the empty string |
| StringFilters.BuiltinOfIgnoresCase | src/BaseForm.php:851-853 | the built-in filter found for a name is the one found for its lower-cased form, and for any name that differs from it only in ASCII case |
| StringFilters.BuiltinFilter | src/Form.php:9-28 | a built-in filter called with no argument raises an `Error` and never throws; `numeric` and `name_of_person` return their results |

## Where the model follows the code

The model does what the code does where the code and its documentation differ:

- `add_validators` merges new rules into a field's existing rule map with `array_merge`. It does not replace the map.
- A rule declaration that is a plain string, not an array, declares no rules. `foreach` over a string does not iterate.
- The `array` rule passes its params to `_validate_single_field` as they are. It does not normalise them first.
- `_bQuick` is private to the base validator, so the quick-mode `break` in the `array` rule never fires. Every element is visited.
- `get_errors` returns the table as it is. It does not trigger validation.
- The documentation says `filter` removes each filter after running it, so that data can be filtered only once. It does not: the filter list is kept.
- `invalidates => null` is not set, so it is not removed from the rule map. It is then dispatched as a rule named `invalidates` and raises the unknown-validator exception, unless the rule is gated or a custom validator named `invalidates` is registered.
- `_get_masked_field_reference` is called by `_execute_filter` but defined in none of the source files. It is modelled as returning the path when the parameter is exactly one marker, and false otherwise, following the marker pattern of src/BaseValidator.php:51.
- `set_submit_method` writes `new Exception` inside the namespace `LuckyNail\SimpleForms` with no `use`, so the name resolves to a class that does not exist and PHP raises a class-not-found `Error` instead of the intended exception (src/BaseForm.php:3, 749). Either way the rejected method is not stored: `Forms.Form.SetSubmitMethod` reports the rejection and leaves the state unchanged. Which error is raised is not modelled.
- `int` uses the result of `filter_var` as its verdict, so the valid integer 0 fails it (`Rules.IntRuleRejectsZero`).

## Left out

- The trait `LuckyNail\Simple\ArrayDotSyntax` is not part of this model. `ads_get` and `ads_set` are defined in `DotSyntax` as dot-path lookup and update; a missing path reads as null and a write creates missing levels.
- Request I/O: the reads of `$_POST`, `$_GET` and `$_FILES` in `get_raw_form_data`. The form's entry of the request is a parameter.
- `is_submitted`, and the static form counter used for form ids.
- HTML rendering and escaping, the inner-HTML callback, and `get_error_messages`.
- `BaseForm::validate`, which calls a `parent::validate()` that does not exist. `_validate` and `is_valid` are modelled instead.
- The `same` validator, which is documented but not implemented. It falls under the unknown-validator exception.
- `ads_to_classic`, which is empty.
- The date validators call `DateTime::createFromFormat` unqualified inside the namespace (src/Validator.php:47-66). This resolves to `LuckyNail\SimpleForms\DateTime`, which does not exist, so in the code each of `date`, `date_after` and `date_before` raises a class-not-found `Error`. The model answers them through the `libraryValidator` oracle, as if the global `DateTime` were meant.
- The validators backed by library calls (`email`, `url`, `regex`, `date`, `date_after`, `date_before`, `imagetype`, `upload`) are the `libraryValidator` oracle. `int` uses the `filterInt` oracle and `numeric` the `numeric` oracle.
- Loose `==`, `is_numeric` and float-to-string conversion are oracles. Floats are exact reals, so rounding is not modelled.
- `sprintf($message, $sVldtrParams)` reads an undefined variable, and so formats with null. A message without `%` is its own result. Any other message uses the `sprintfNull` oracle.
- PHP callables found by `is_callable` are an oracle. So is `password_hash`, used by the `encrypt` filter.
- PHP 7 semantics are modelled. PHP 8 raises a `TypeError` in several places where PHP 7 warns and goes on: `count` of a scalar, `in_array` on a non-array, and `preg_replace` on an array element. Those errors are not modelled.
- The reference rewrite loop of `_decipher_masked_field_references_rec` may never end. The model gives it 1000 rounds (`References.Fuel`) and reports a longer run as the fault `RewriteLimit`. A loop that would end after more than 1000 rounds is not modelled.
- The `foreach` by reference in `_decipher_masked_field_references_rec` is modelled by its net effect: each element is resolved in place. Aliasing between elements is not modelled.
- Validation.Validator.AddErrorMessages: takes an array of messages. `array_merge` with a non-array argument is not modelled.
- Forms.Form.AddCustomFilterFunctions: custom filters are a map from key to closure. So an integer key replaces an existing one, where `array_merge` would renumber it and append.
- Forms.Form.constructor: models only the settings that decide the form data (`whitelist`, `token`, `default_values`, `filters`). It leaves out `id`, `encoding`, `enctype`, `form_submit_method`, `inner_html_callback` and `validators`. The submit method only selects which superglobal is read, and the validators belong to the `Validation.Validator` class.
- `get`, `get_filtered_form_data` and `_check_token` read the form and change nothing. They are modelled as `FormData.Fetch`, `FormData.StripSecurityKeys` and `FormData.CheckToken`, applied to the form's `filtered`, `filtered` and `token`/`raw` fields.
- Rules.StrlenOf: a PHP string is a byte sequence, modelled as one `char` per byte, so `strlen` is the number of chars. Decoding multibyte text is not modelled, because `strlen` never decodes it.
- PhpValues.NextIndex: arrays carry no internal next-free counter. `$a[] = $v` uses one past the largest integer key present, where PHP also counts keys removed by `unset` (after `unset($d[5])` on `[5 => 'x']`, PHP pushes at 6 and the model at 0).
- The class hierarchy BaseValidator, Validator, BaseForm, Form is split into two classes. `Validation.Validator` holds the validation state and `Forms.Form` holds the form state.
