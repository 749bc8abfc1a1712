# GoRule filter engine in Dafny

A model of the core of GoRule, a small Go rule engine that compiles a SCIM-style filter expression into a boolean predicate and evaluates it against values the caller binds. The filter vocabulary is the one in section 3.4.2.2 of RFC 7644:
- the operators `eq ne gt lt ge le co sw ew pr`;
- `and`/`or`;
- `not`.

The library adds its own `in` operator, type annotations such as `[i32]` or `[d]`, and strict type checking for annotated literals.

The model follows the library's own four pieces. They sit on a shared base of small modules:

| module | file | what it holds |
|---|---|---|
| `Wrappers` | `wrappers.dfy` | `Option` and `Result` |
| `Text` | `text.dfy` | the `strings` functions used: prefix, suffix, contains, ASCII lowering, lexicographic order, `ReplaceAll` of a two-character pattern |
| `Numbers` | `numbers.dfy` | `strconv` integer parsing at bit widths 32 and 64, decimal rendering, and exact decimal numerals (`Num(coef, exp)`, the representation of `decimal.Decimal`) with an exact comparison |
| `Errors` | `errors.dfy` | the ten sentinel errors, the three wrapping constructors, and a separate `RuntimePanic` for the places where the Go code panics |
| `Values` | `values.dfy` | the closed set of run-time values a comparison sees, one per Go kind, with `reflect.TypeOf` and `fmt.Sprint` |
| `Models` | `models.dfy` | the records: `InputType`, `ArgumentType`, `FunctionArgument`, `Parameter`, the expression tree, `Config`, `Evaluation` |
| `Compare` | `compare.dfy` | the comparison engine: `compareDecimal`, `compareOrdered`, `compareStringOps`, `compareOperator` |
| `Syntax` | `syntax.dfy` | the shape of the parse tree the compiler consumes |
| `Literals` | `literals.dfy` | literal coercion: `unquoteString`, `applyUserType`, `parseTypedValue`, `parseValue`, and the argument list of `parseFunctionCall` |
| `ExprTrees` | `exprtrees.dfy` | the evaluator, `exprTree.evaluate` |
| `Visit` | `visit.dfy` | the compiler: the class `QueryVisitor` with its `parameters` table and its visit methods. Each method is proved against the function `Compile`, which threads the table. |
| `RuleEngine` | `rule_engine.dfy` | the class `ErrorListener`, the `Rule` datatype with its `Evaluate` method, and `ParseQuery` after parsing |

Behaviour of the code that the model keeps on purpose:
- In strict mode the type check runs before the string operators.
- A `null` literal is lenient.
- A `[d]` literal that does not parse becomes the zero decimal.
- The raw text of an integer literal is the whole node, annotation included. A numerically annotated integer literal is therefore always an invalid value.
- `in` tests whether the left operand occurs in the right one.
- `and`/`or` do not short-circuit.
- A leaf without a binding yields its `not` flag.
- A non-typed value node reports `ErrorUnknownDecimalOperator`.

Panics are modelled as `RuntimePanic`. They arise from:
- `reflect.TypeOf(nil).String()`;
- a failed type assertion;
- a nil parameter dereference;
- a comparison whose left side is not an attribute path.

`ParseQuery` recovers a panic into a local variable, not into its unnamed results. A panic while compiling therefore yields the zero rule and a nil error. The model returns exactly that.

## Model

| member | source | states |
|---|---|---|
| Errors.NewSyntaxError | errors.go:19-21 | the error wraps `ErrorSyntaxError` and its text is "syntax error at line " followed by the position |
| Errors.NewErrorInvalidOperator | errors.go:23-25 | the error wraps `ErrorInvalidOperator` and its text names the operator, then the type |
| Errors.NewErrorTypeMismatch | errors.go:27-29 | the error wraps `ErrorTypeMismatch` and carries its two type names in argument order |
| Errors.ErrorWrapsOneSentinel | errors.go:8-29 | every error `errors.Is` exactly one sentinel, and its message starts with that sentinel's text |
| Errors.SentinelMessagesDistinct | errors.go:8-17 | the ten sentinel texts are pairwise distinct, except that `ErrorUnknownType` and `ErrorInvalidValue` share "invalid value" |
| Models.InputTypeOrdinal | models.go:8-11 | `InputType` has two values; `FunctionCall` is 0 and `Expression` is 1 |
| Models.ArgumentTypeOrdinal | models.go:16-31 | every argument type has an ordinal below 14 |
| Models.ArgumentTypeOf | models.go:16-31 | an ordinal names an argument type exactly when it is in 0..13 |
| Models.ArgumentTypeOrdinalRoundTrip | models.go:16-31 | ordinals and argument types are inverse: `ArgTypeUnknown` = 0 through `ArgTypeDecimal` = 13, none missing, none repeated |
| Models.Leaf | models.go:65-71 | a leaf node carrying a parameter is a well-shaped tree whose only leaf parameter is that one |
| Values.TypeOf | compare.go:45-49 | the run-time type is missing exactly for nil |
| Values.TypeName | compare.go:47 | the `reflect` name of each listed type is its Go spelling ("int", "uint32", "float64", "decimal.Decimal", ...), and each such name identifies its type |
| Values.SameTypeIsSameConstructor | compare.go:45-49 | two listed values have the same run-time type iff they are the same Go kind, so the strict check compares kinds and not argument types |
| Values.RenderInteger | compare.go:70 | formatting any integer kind with `%v` gives its decimal numeral, which parses back as a numeral to exactly that integer |
| Values.RenderNumberParsesBack | compare.go:130-140 | formatting a decimal or a float with `%v` gives a numeral that parses back to the same exact value |
| Numbers.CompareInts | compare.go:171-187 | the three-way order of two integers is Less, Equal or Greater exactly as `<`, `==`, `>` |
| Numbers.ParseUint | parse.go:184-189 | `strconv.ParseUint` at a width only yields values in 0..2^w-1 |
| Numbers.ParseInt | parse.go:191-196 | `strconv.ParseInt` at a width only yields values in the signed range of that width |
| Numbers.ParseIntOfRenderInt | compare.go:70-73 | reparsing an integer's decimal numeral as a signed integer gives it back iff it fits the width, and fails otherwise |
| Numbers.ParseUintOfRenderNat | compare.go:100-103 | reparsing a natural's numeral as unsigned gives it back iff it fits the width |
| Numbers.ParseUintRefusesSign | compare.go:100-103 | a negative numeral never parses as unsigned |
| Numbers.CompareNumsIsExact | compare.go:16-32 | the comparison of two decimal numerals agrees with the order of the reals they denote, for all three outcomes |
| Numbers.ParseNumeralOfRenderInt | compare.go:140-143 | an integer's numeral parses as a float to exactly that integer |
| Numbers.NormalizedValue | compare.go:130-140 | stripping trailing zero digits from a numeral (moving them into the exponent) keeps its value |
| Numbers.ExponentTextParses | compare.go:130-140 | the exponent of `%v` output (sign, at least two digits) contains no exponent mark and reads back as that exponent iff it fits 32 bits |
| Numbers.ScientificParsesBack | compare.go:130-140 | the exponent form of a float (one leading digit, the rest after a point, then `e` and the exponent) reads back as exactly the normalized numeral |
| Numbers.ScientificIsNoInteger | compare.go:70-124 | the exponent form never parses as a signed or unsigned integer at any width |
| Numbers.RenderNumParsesBack | compare.go:130-140 | the positional rendering of a numeral parses back to the same value |
| Numbers.RenderFloatParsesBack | compare.go:130-140 | `%v` on a float, in either positional or exponent form, parses back to the same value |
| Numbers.MillionRendersInExponentForm | compare.go:70 | `%v` switches to the exponent form at a million: the float 1000000.0 renders as "1e+06" |
| Text.ContainsIffOccurs | compare.go:208-219 | `strings.Contains` holds iff the pattern occurs at some offset |
| Text.ContainsEmptyAndSelf | compare.go:208-210 | every string contains the empty string and itself |
| Text.CompareStrings | compare.go:146-151 | strings compare Equal iff they are equal |
| Text.CompareStringsAntisymmetric | compare.go:171-187 | a is below b iff b is above a |
| Text.CompareStringsTransitive | compare.go:171-187 | string order is transitive |
| Text.CompareStringsIsLexicographic | compare.go:146-151 | a string is below another iff it is a proper prefix of it or the first differing character is smaller |
| Text.ToLower | visit.go:79 | lowering keeps the length |
| Text.ToLowerIdempotent | parse.go:245 | lowering twice is lowering once, and a lowered string has no upper-case letter |
| Compare.CompareDecimal | compare.go:16-32 | succeeds iff the operator is one of eq/==, ne/!=, gt/>, lt/<, ge/>=, le/<=; the result is then the matching exact ordering of the two values; any other operator gives `ErrorUnknownDecimalOperator` |
| Compare.CompareOrdered | compare.go:171-187 | succeeds iff the operator is one of eq, ne, gt, lt, ge, le (no symbolic aliases), with the matching ordering; any other operator is an invalid operator on the operands' type |
| Compare.CompareStringOps | compare.go:197-222 | `pr` is true iff the left is non-nil; co/sw/ew test the rendered right as substring, prefix or suffix of the rendered left; `in` tests left inside right; any other operator gives `ErrorUnknownStringOperator` |
| Compare.CompareOperator | compare.go:43-165 | a strict kind mismatch always fails (type mismatch or panic); past it, the string operators always succeed; any success comes from a string, ordering, or decimal-on-decimal operator; every failure is a panic, a type mismatch, an invalid operator, an invalid value or an unknown decimal operator |
| Compare.StrictMismatchComesFirst | compare.go:45-49 | under strict checking, operands of different kinds give a type mismatch naming the right type first and then the left, whatever the operator |
| Compare.PresenceIgnoresRight | compare.go:197-201 | `pr` is true exactly for a non-nil left value, whatever the right value |
| Compare.StringOperatorsOnRenderings | compare.go:52-55 | for every kind of left value (past the strict check), co/sw/ew test the rendered right as substring, prefix or suffix of the rendered left, case-sensitively, and `in` tests the rendered left inside the rendered right |
| Compare.LenientIntegerComparison | compare.go:66-124 | leniently, an integer of any kind compared with an integer of any kind compares numeric values when the right value fits the left kind's width and sign, and is `ErrorInvalidValue` otherwise |
| Compare.LenientIntegerWithNumeral | compare.go:66-124 | leniently, an integer compared with a string that is a base-10 numeral compares by value when it fits the left kind, and is `ErrorInvalidValue` otherwise |
| Compare.LenientIntegerWithBool | compare.go:66-124 | leniently, an integer compared with a bool is always `ErrorInvalidValue` ("true"/"false" are not numerals) |
| Compare.LenientIntegerWithExponentFloat | compare.go:66-124 | leniently, an integer compared with a float that `%v` renders in exponent form is always `ErrorInvalidValue` |
| Compare.IntegerBelowMillionFloat | compare.go:66-74 | `5 lt 1000000.0` leniently is `ErrorInvalidValue`, not true, because the float renders as "1e+06" |
| Compare.LenientIntegerReparse | compare.go:66-124 | for any right value rendered as the numeral of some integer, the lenient integer path compares with that integer when it fits the left kind, and is `ErrorInvalidValue` otherwise |
| Compare.LenientSignedReparse | compare.go:70-74 | the lenient signed path renders the right value, reparses it at the width, and compares when it parses |
| Compare.LenientUnsignedReparse | compare.go:100-104 | the lenient unsigned path renders, reparses unsigned and compares when it parses |
| Compare.StrictIntegerComparison | compare.go:66-124 | under strict checking, two integers of the same kind compare by value |
| Compare.LenientFloatWithInteger | compare.go:126-144 | leniently, a float compared with an integer of any kind compares by exact value |
| Compare.LenientFloatWithNumber | compare.go:126-144 | leniently, a float compared with a decimal or a float (with a 32-bit exponent) compares by exact value, through its `%v` text |
| Compare.LenientFloatReparse | compare.go:130-144 | the lenient float path compares with the exact value of the right value's reparsed text, whenever that text is a numeral |
| Compare.StringComparison | compare.go:146-151 | a string left compares lexicographically with the right value, rendered first when lenient |
| Compare.BoolComparison | compare.go:153-160 | for a bool left, `eq` is true iff the right is the same bool (another kind is just unequal), `ne` is its negation, and any other operator is invalid on bool |
| Compare.DecimalComparison | compare.go:57-61 | a decimal left goes to the decimal comparison when the right is decimal; otherwise the unchecked assertion panics |
| Compare.UnknownOperatorOnStrings | compare.go:185-186 | an unknown operator on a string left is an invalid operator on "string" |
| Compare.UnlistedKindMismatch | compare.go:162-163 | a left of an unlisted kind gives a type mismatch naming the right type and then the left |
| Compare.NilLeftPanics | compare.go:162-163 | a nil left outside the string operators panics when its type name is taken |
| Syntax.AnnotatedText | parse.go:150 | the text of an annotated integer node starts with its annotation; an unannotated one is just the numeral |
| Literals.UnescapeQuotes | parse.go:272 | replacing `\"` by `"` in an escaped text undoes the quote escaping |
| Literals.UndoubleBackslashes | parse.go:273 | replacing `\\` by `\` undoes the backslash doubling |
| Literals.UnquoteString | parse.go:268-277 | a quoted text loses at least its two quotes; any other text is returned unchanged |
| Literals.UnquoteOfQuote | parse.go:269-277 | unquoting a quoted and escaped string gives the original string back |
| Literals.StripBrackets | parse.go:161-163 | removing the brackets never lengthens the annotation |
| Literals.TagOfTagText | parse.go:161-165 | every annotation tag is recognised from its text, with or without brackets |
| Literals.ReadAs | parse.go:165-227 | a value read under a tag has the tag's argument type; `s` and `d` always succeed |
| Literals.ApplyTag | parse.go:165-227 | a parsed value matches its argument type; a parse failure is `ErrorInvalidValue`; `s` and `d` never fail |
| Literals.ApplyUserType | parse.go:160-231 | success only for a known tag, with a value of the reported type; failure is `ErrorInvalidValue` for a known tag and `ErrorUnknownType` otherwise |
| Literals.IntegerTagRoundTrip | parse.go:177-217 | an integer's numeral under an integer tag parses back to that integer iff it fits the tag's width and sign |
| Literals.UnsignedRoundTrip | parse.go:184-210 | an integer's numeral parses as unsigned iff it is in 0..2^w-1 |
| Literals.ParseTypedValue | parse.go:119-155 | a typed value's literal has the reported argument type; it is strict iff annotated; a non-typed node gives `ErrorUnknownDecimalOperator` |
| Literals.ParseValue | parse.go:238-266 | a value's literal has the reported type; it is strict iff a boolean or an annotated typed value; other nodes give `ErrorInvalidValue` |
| Literals.BooleanIgnoresCase | parse.go:244-249 | a boolean literal always parses, strictly, as `ArgTypeBoolean`; its value is true exactly when its text is "true" in any letter case; only the lowered text matters |
| Literals.NullLiteral | parse.go:251-252 | `null` parses to the nil value, as `ArgTypeNull`, leniently |
| Literals.ListsKeepTheirText | parse.go:254-261 | all three list literals give their raw text as a lenient `ArgTypeList` string |
| Literals.UnannotatedStringLiteral | parse.go:121-129 | an unannotated string reads as the string it quotes, as `[s]`, leniently |
| Literals.UnannotatedDoubleLiteral | parse.go:131-140 | an unannotated double with digits before and after its point reads, leniently as `[f64]`, as exactly the float with those digits and that many fraction digits |
| Literals.UnannotatedIntegralDouble | parse.go:131-140 | an unannotated double written as an integer numeral reads as exactly that integer, as `[f64]`, leniently |
| Literals.UnannotatedIntegerLiteral | parse.go:142-151 | an unannotated integer reads as an int64, as `[i64]`, leniently, and is an invalid value outside the int64 range |
| Literals.DefaultIntegerType | parse.go:191-196 | an integer numeral under the default `[i64]` reads as that int64 when in range, and is an invalid value otherwise |
| Literals.AnnotatedQuotedInteger | parse.go:121-129 | a quoted integer under an integer annotation reads strictly as that integer iff it fits the annotated kind |
| Literals.ReadBracketed | parse.go:150 | a raw text starting with `[` is an invalid number for every numeric tag, a string for `s`, and the zero decimal for `d` |
| Literals.AnnotatedIntegerLiteral | parse.go:142-151 | an annotated integer literal is read from its whole text: strictly a string for `[s]`, strictly the zero decimal for `[d]`, and an invalid value for every numeric tag |
| Literals.CollectSucceeds | parse.go:99-108 | collecting argument parses succeeds iff every parse succeeded |
| Literals.CollectInOrder | parse.go:99-108 | collected arguments are one per parse, in order, each carrying its literal's type and value |
| Literals.CollectStopsAtFirstFailure | parse.go:99-103 | collecting stops with the error of the first failed parse |
| Literals.ParsedArgumentsSucceed | parse.go:97-109 | a call's arguments parse iff every value parses |
| Literals.ParsedArgumentsInOrder | parse.go:97-109 | a call's arguments are one per value, in order, with each value's type and value (its strict flag dropped) |
| Literals.FirstArgumentErrorWins | parse.go:99-103 | the error reported for a call is that of its first value that does not parse |
| Literals.ParsedFunctionCall | parse.go:90-111 | a missing call is `ErrorInvalidFunctionCall`; a result carries the call's name; a call without an argument list has no arguments |
| ExprTrees.Evaluate | parse.go:20-87 | a nil node is `ErrorNoExpression`; a leaf whose id is unbound yields its `not` flag |
| ExprTrees.NegatedFlipsResult | parse.go:20-87 | inverting a node's `not` flag inverts its result and keeps its error |
| ExprTrees.NoShortCircuit | parse.go:27-40 | a false left operand of `and` does not hide an error in the right one |
| ExprTrees.LeftErrorWins | parse.go:27-50 | when both children of `and`/`or` fail, the left child's error is returned |
| ExprTrees.EvaluationErrors | parse.go:20-87 | evaluation only fails with `ErrorNoExpression` or an error of the comparison engine |
| ExprTrees.DeMorgan | parse.go:26-55 | a negated `and` equals the `or` of the negated children, and a negated `or` equals the `and` of the negated children |
| ExprTrees.UnboundLeaf | parse.go:59-71 | an unbound leaf yields its `not` flag, for `pr` and for every other operator |
| ExprTrees.EvaluateDependsOnLeafIds | parse.go:58-73 | a tree's result depends only on the values bound to its leaves' ids, and not on the debug flag |
| Visit.CompareParameter | visit.go:88-126 | a comparison's parameter takes the id it is given and the lowered operator |
| Visit.Compile | visit.go:24-37 | compiling only appends to the parameter table |
| Visit.CompileAppendsLeaves | visit.go:24-126 | on success the table grows by exactly one parameter per comparison or presence test; for a lexically valid query the new entries are the tree's leaf parameters left to right, and the tree has the evaluator's shape |
| Visit.CompileKeepsIdsIndices | visit.go:54-126 | if every table entry's id is its position, that stays true, so ids are exactly 0..n-1 in traversal order |
| Visit.QueryVisitor.constructor | visit.go:12-16 | a new visitor has an empty parameter table |
| Visit.QueryVisitor.VisitRoot | visit.go:19-21 | visiting the root compiles its query against the visitor's table |
| Visit.QueryVisitor.Visit | visit.go:24-37 | the dispatcher handles the four query shapes and gives `ErrorInvalidExpression` for any other; result and new table are those of `Compile` |
| Visit.QueryVisitor.VisitParenExp | visit.go:40-51 | a group compiles its inner query and flips its `not` once iff a NOT token is present |
| Visit.QueryVisitor.VisitPresentExp | visit.go:54-64 | a presence test appends one `pr` parameter whose id is the table's length |
| Visit.QueryVisitor.VisitLogicalExp | visit.go:67-85 | a logical query compiles left then right and aborts on either error |
| Visit.QueryVisitor.VisitCompareExp | visit.go:88-126 | a comparison appends one parameter whose id is the table's length, or nothing on error |
| Visit.QueryVisitor.ParseFunctionCall | parse.go:90-111 | the loop returns the call's name and arguments exactly when the call parses, and otherwise the first argument's error with an empty name and no arguments |
| Visit.QueryVisitor.GetAttrName | parse.go:113-116 | an attribute's name is the full text of its path |
| Visit.CompareErrorAppendsNothing | visit.go:103-108 | a comparison that fails leaves the table as it was |
| Visit.CompareLeaf | visit.go:88-126 | a comparison's leaf is the table's new last entry. It has the next id, the lowered operator, and the literal's value, type and strictness. It has the call's name and arguments as `FunctionCall`, or the path text as `Expression` |
| Visit.PresentLeaf | visit.go:54-64 | a presence test's leaf is the new last entry: next id, operator `pr`, no literal, lenient, `Expression`, named by the path text |
| Visit.CompiledComparisonEvaluates | visit.go:88-126 | a compiled comparison evaluates, under any binding, to the comparison of the value bound to its id with the literal, or false when unbound |
| Visit.CompiledPresenceEvaluates | visit.go:54-64 | a compiled presence test evaluates to whether a non-nil value is bound to its id |
| Visit.LeftIdsBeforeRight | visit.go:67-85 | every parameter id of a logical node's left subtree is below every id of its right subtree |
| Visit.DoubleNegationCancels | visit.go:40-51 | two NOT tokens compile exactly as none |
| Visit.NotTokenInverts | visit.go:46-49 | a NOT token inverts the compiled query's result under every binding and keeps its errors |
| RuleEngine.ReportError | parse.go:13-16 | a reported syntax error wraps `ErrorSyntaxError`, and its text is the line, column and parser message |
| RuleEngine.ErrorListener.constructor | ruleEngine.go:46 | a new listener has seen no error |
| RuleEngine.ErrorListener.SyntaxError | parse.go:13-16 | after a report the listener has errors and holds that report's error, replacing any earlier one |
| RuleEngine.BindingMapDomain | ruleEngine.go:10-13 | an id is bound iff some binding's parameter has that id |
| RuleEngine.LastBindingWins | ruleEngine.go:10-13 | an id is bound to the value of its last binding |
| RuleEngine.BindingsMatchOnlyIds | ruleEngine.go:12 | bindings that agree on ids and values give the same map, whatever their parameters' other fields |
| RuleEngine.Rule.Evaluate | ruleEngine.go:9-15 | the loop builds the binding map and evaluation returns the evaluator's result on it; the rule is a value and is not changed |
| RuleEngine.EmptyRuleEvaluationPanics | parse.go:58-60 | evaluating the zero rule dereferences its missing parameter |
| RuleEngine.ParseQuery | ruleEngine.go:17-68 | the listener, the visitor and the rule assembly return exactly what `ParsedQuery` describes |
| RuleEngine.SyntaxErrorStopsCompilation | ruleEngine.go:52-54 | any reported syntax error gives the zero rule and the syntax error of the last report, and nothing is compiled |
| RuleEngine.CompiledRule | ruleEngine.go:56-67 | a compiled rule has no error. Its tree and parameters are those the compiler built. Its parameter ids are 0..n-1, with one parameter per leaf of the query. For a lexically valid query these are the tree's leaves in order. Its debug flag is the configuration's |
| RuleEngine.CompileErrorGivesEmptyRule | ruleEngine.go:17-68 | a compile error gives the zero rule with that error, except a recovered panic, which gives no error at all |
| RuleEngine.SingleComparisonRule | ruleEngine.go:17-68 | a query of one comparison compiles without error to a rule whose evaluation under any bindings compares the value bound to id 0 with the literal, or is false when unbound |
| RuleEngine.UsrIdEq17Compiles | ruleEngine_test.go:21-35 | `usr_id eq 17` compiles to one lenient int64 leaf with id 0 |
| RuleEngine.UsrIdEq17Evaluates | ruleEngine_test.go:21-50 | binding the int 17 to that leaf satisfies the rule and binding 18 does not |
| RuleEngine.UnknownOperatorOnString | ruleEngine_test.go:311-347 | an unknown operator on a bound string is an invalid-operator error |

## Left out

- Lexing and parsing of the query text (the generated ANTLR parser) are not part of this model. The parse tree and the syntax errors the parser reports are inputs to `RuleEngine.ParseQuery`.
- The `jsonquery` grammar files are not part of this model.
- Debug printing in the evaluator and the "Recovered" message in `ParseQuery` are left out. The debug flag only enables that printing, so the model carries it but ignores it.
- Floats are exact decimal numerals. The model leaves out:
  - rounding to binary32 or binary64;
  - range errors, NaN and infinities;
  - hexadecimal and underscore numerals in `strconv.ParseFloat`.
- Numbers.RenderFloat: `%v` on a float is modelled on its exact decimal value: the shortest digits of that value, in exponent form when the leading digit's exponent is below -4 or at least 6, as `%v` does. The shortest binary round-trip digits and the rounding of `ParseFloat` to 32 or 64 bits are not modelled.
- Compare.LenientFloatWithNumber: stated only for floats whose leading-digit exponent fits 32 bits, as that of every `float64` does.
- `decimal.NewFromString` accepts the same numerals as the model's float parser. Its other syntax is not modelled.
- Lowering is ASCII only. Unicode case folding is not modelled.
- The `String` methods of `ArgumentType` and `InputType` are not part of this model.
- The expression tree is modelled as a value. Go shares leaf parameters through pointers, and `visitParenExp` flips the flag of the subtree it was handed. No caller can observe either, so the model does not capture aliasing.
- `Evaluate` on the zero `Rule{}` panics in Go and is not recovered. The model returns `RuntimePanic` as a value.
- Values of unlisted Go kinds are represented only by their type name and rendering.
- Text.CompareStrings: its contract states only the Equal case. The full order is stated by the separate lemmas `CompareStringsIsLexicographic`, `CompareStringsAntisymmetric` and `CompareStringsTransitive`.
- Literals.StripBrackets: its contract states only that the result is no longer than the input. What it yields for each tag's text is stated in `Literals.TagOfTagText`.
- Visit.Compile: its contract states only that the table grows. Its other properties are stated in `CompileAppendsLeaves`, `CompileKeepsIdsIndices` and the leaf lemmas.
