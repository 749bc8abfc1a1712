/**
 * Turning literal nodes of the parse tree into typed values: string
 * unquoting, the type-annotation table, the defaults for unannotated
 * literals, and the arguments of a function call.
 */
module Literals {
  import opened Wrappers
  import opened Text
  import opened Numbers
  import opened Values
  import opened Errors
  import opened Models
  import opened Syntax

  /** A literal as the compiler records it: its value, its declared type and whether comparisons with it are strict. */
  datatype Literal = Literal(value: Value, argType: ArgumentType, strict: bool)

  // ---------------------------------------------------------------- quoting

  /**
   * `unquoteString`: a token wrapped in double quotes loses them, then
   * `\"` becomes `"` and afterwards `\\` becomes `\`, each pass left to
   * right; any other text is returned unchanged.
   */
  function UnquoteString(s: string): (r: string)
    ensures |s| >= 2 && s[0] == '"' && s[|s| - 1] == '"' ==> |r| <= |s| - 2
    ensures !(|s| >= 2 && s[0] == '"' && s[|s| - 1] == '"') ==> r == s
  {
    if |s| >= 2 && s[0] == '"' && s[|s| - 1] == '"' then
      ReplacePair(ReplacePair(s[1..|s| - 1], '\\', '"', '"'), '\\', '\\', '\\')
    else s
  }

  /** The escaping a writer of a string literal applies: backslash and quote are preceded by a backslash. */
  function Escape(x: string): string {
    if x == [] then []
    else if x[0] == '\\' then ['\\', '\\'] + Escape(x[1..])
    else if x[0] == '"' then ['\\', '"'] + Escape(x[1..])
    else [x[0]] + Escape(x[1..])
  }

  /** Only the backslashes doubled: what the first unescaping pass must leave. */
  function DoubleBackslashes(x: string): string {
    if x == [] then []
    else if x[0] == '\\' then ['\\', '\\'] + DoubleBackslashes(x[1..])
    else [x[0]] + DoubleBackslashes(x[1..])
  }

  /** A string token for `x`. */
  function Quote(x: string): (s: string)
    ensures |s| >= 2 && s[0] == '"' && s[|s| - 1] == '"'
  {
    ['"'] + Escape(x) + ['"']
  }

  lemma EscapeStartsWithNoQuote(x: string)
    ensures Escape(x) != [] ==> Escape(x)[0] != '"'
  {
  }

  /** The first pass undoes exactly the quote escapes. */
  lemma {:induction false} UnescapeQuotes(x: string)
    ensures ReplacePair(Escape(x), '\\', '"', '"') == DoubleBackslashes(x)
    decreases |x|
  {
    if x != [] {
      var s := Escape(x);
      var rest := Escape(x[1..]);
      UnescapeQuotes(x[1..]);
      if x[0] == '\\' {
        EscapeStartsWithNoQuote(x[1..]);
        assert s[1..] == ['\\'] + rest;
        assert s[1..][1..] == rest;
      } else if x[0] == '"' {
        assert s[2..] == rest;
      } else {
        assert s[1..] == rest;
      }
    }
  }

  /** The second pass undoes the backslash doubling. */
  lemma {:induction false} UndoubleBackslashes(x: string)
    ensures ReplacePair(DoubleBackslashes(x), '\\', '\\', '\\') == x
    decreases |x|
  {
    if x != [] {
      var s := DoubleBackslashes(x);
      UndoubleBackslashes(x[1..]);
      if x[0] == '\\' {
        assert s[2..] == DoubleBackslashes(x[1..]);
      } else {
        assert s[1..] == DoubleBackslashes(x[1..]);
      }
      assert x == [x[0]] + x[1..];
    }
  }

  /** Unquoting inverts quoting: every string survives the round trip through a string token. */
  lemma UnquoteOfQuote(x: string)
    ensures UnquoteString(Quote(x)) == x
  {
    var s := Quote(x);
    assert s[1..|s| - 1] == Escape(x);
    UnescapeQuotes(x);
    UndoubleBackslashes(x);
  }

  // ------------------------------------------------------------ annotations

  /** The annotation with its surrounding brackets removed, when it has them. */
  function StripBrackets(userType: string): (t: string)
    ensures |t| <= |userType|
  {
    if |userType| >= 2 && HasPrefix(userType, "[") && HasSuffix(userType, "]") then userType[1..|userType| - 1]
    else userType
  }

  /** The ten type tags of the annotation table. */
  datatype Tag = F64 | D | I | UI | I64 | UI64 | UI32 | I32 | S | F32

  /** The tag a (bracket-stripped) annotation names, if it names one. */
  function TagOf(t: string): Option<Tag> {
    if t == "f64" then Some(F64)
    else if t == "d" then Some(D)
    else if t == "i" then Some(I)
    else if t == "ui" then Some(UI)
    else if t == "i64" then Some(I64)
    else if t == "ui64" then Some(UI64)
    else if t == "ui32" then Some(UI32)
    else if t == "i32" then Some(I32)
    else if t == "s" then Some(S)
    else if t == "f32" then Some(F32)
    else None
  }

  /** The spelling of each tag. */
  function TagText(tag: Tag): string {
    match tag
    case F64 => "f64"
    case D => "d"
    case I => "i"
    case UI => "ui"
    case I64 => "i64"
    case UI64 => "ui64"
    case UI32 => "ui32"
    case I32 => "i32"
    case S => "s"
    case F32 => "f32"
  }

  /** Each tag is recognised from its spelling, with or without the brackets. */
  lemma TagOfTagText(tag: Tag)
    ensures TagOf(TagText(tag)) == Some(tag)
    ensures StripBrackets("[" + TagText(tag) + "]") == TagText(tag)
  {
    var u := "[" + TagText(tag) + "]";
    assert HasPrefix(u, "[") && HasSuffix(u, "]");
    assert u[1..|u| - 1] == TagText(tag);
  }

  predicate IsIntegerTag(tag: Tag) {
    tag.I? || tag.UI? || tag.I64? || tag.UI64? || tag.UI32? || tag.I32?
  }

  /** The range of integers an integer tag accepts. */
  predicate FitsTag(tag: Tag, x: int)
    requires IsIntegerTag(tag)
  {
    match tag
    case I => I64Min <= x <= I64Max
    case I64 => I64Min <= x <= I64Max
    case I32 => I32Min <= x <= I32Max
    case UI32 => 0 <= x <= U32Max
    case UI => 0 <= x <= U64Max
    case UI64 => 0 <= x <= U64Max
  }

  /** The argument type each tag declares. */
  function TagArgumentType(tag: Tag): ArgumentType {
    match tag
    case F64 => ArgTypeFloat64
    case D => ArgTypeDecimal
    case I => ArgTypeInteger
    case UI => ArgTypeUnsignedInteger
    case I64 => ArgTypeInteger64
    case UI64 => ArgTypeUnsignedInteger64
    case UI32 => ArgTypeUnsignedInteger32
    case I32 => ArgTypeInteger32
    case S => ArgTypeString
    case F32 => ArgTypeFloat32
  }

  /**
   * The raw text read as the tag's type, if it reads: `s` keeps the text;
   * `d` always reads, text that is not a decimal numeral giving the zero
   * decimal.
   */
  function ReadAs(raw: string, tag: Tag): (r: Option<Value>)
    ensures r.Some? ==> Describes(TagArgumentType(tag), r.value)
    ensures tag.S? || tag.D? ==> r.Some?
  {
    match tag
    case F64 => (match ParseNumeral(raw) case None => None case Some(n) => Some(Float64(n)))
    case D => (match ParseNumeral(raw) case None => Some(Decimal(ZeroNum)) case Some(n) => Some(Decimal(n)))
    case I => (match ParseInt(raw, W64) case None => None case Some(x) => Some(Int(x)))
    case UI => (match ParseUint(raw, W64) case None => None case Some(x) => Some(Uint(x)))
    case I64 => (match ParseInt(raw, W64) case None => None case Some(x) => Some(Int64(x)))
    case UI64 => (match ParseUint(raw, W64) case None => None case Some(x) => Some(Uint64(x)))
    case UI32 => (match ParseUint(raw, W32) case None => None case Some(x) => Some(Uint32(x)))
    case I32 => (match ParseInt(raw, W32) case None => None case Some(x) => Some(Int32(x)))
    case S => Some(Str(raw))
    case F32 => (match ParseNumeral(raw) case None => None case Some(n) => Some(Float32(n)))
  }

  /** One entry of the annotation table: text that does not read as the tag's type is an invalid value. */
  function ApplyTag(raw: string, tag: Tag): (r: Result<(Value, ArgumentType), Error>)
    ensures r.Success? ==> Describes(r.value.1, r.value.0)
    ensures r.Failure? ==> r.error == Bare(ErrorInvalidValue)
    ensures tag.S? || tag.D? ==> r.Success?
  {
    match ReadAs(raw, tag)
    case None => Failure(Bare(ErrorInvalidValue))
    case Some(v) => Success((v, TagArgumentType(tag)))
  }

  /**
   * `applyUserType`: strip the brackets, look the tag up and read the raw
   * text as that type; an unknown tag is `ErrorUnknownType`.
   */
  function ApplyUserType(raw: string, userType: string): (r: Result<(Value, ArgumentType), Error>)
    ensures r.Success? ==> TagOf(StripBrackets(userType)).Some? && Describes(r.value.1, r.value.0)
    ensures r.Failure? ==> r.error == if TagOf(StripBrackets(userType)).Some? then Bare(ErrorInvalidValue) else Bare(ErrorUnknownType)
  {
    match TagOf(StripBrackets(userType))
    case None => Failure(Bare(ErrorUnknownType))
    case Some(tag) => ApplyTag(raw, tag)
  }

  /**
   * An integer written in base 10 and read back under an integer tag gives
   * that integer, of the tag's kind, exactly when it is in the tag's range.
   */
  lemma IntegerTagRoundTrip(x: int, tag: Tag)
    requires IsIntegerTag(tag)
    ensures var r := ApplyUserType(RenderInt(x), "[" + TagText(tag) + "]");
      && (r.Success? <==> FitsTag(tag, x))
      && (r.Success? ==> IsInteger(r.value.0) && IntOf(r.value.0) == x)
  {
    TagOfTagText(tag);
    match tag
    case I => ParseIntOfRenderInt(x, W64);
    case I64 => ParseIntOfRenderInt(x, W64);
    case I32 => ParseIntOfRenderInt(x, W32);
    case UI => UnsignedRoundTrip(x, W64);
    case UI64 => UnsignedRoundTrip(x, W64);
    case UI32 => UnsignedRoundTrip(x, W32);
  }

  lemma UnsignedRoundTrip(x: int, w: Width)
    ensures ParseUint(RenderInt(x), w) == if 0 <= x <= UnsignedMax(w) then Some(x) else None
  {
    if x < 0 {
      ParseUintRefusesSign(x, w);
    } else {
      ParseUintOfRenderNat(x, w);
    }
  }

  // ---------------------------------------------------------- typed values

  /** The annotation's text, or the default type of the literal's kind. */
  function UserType(annotation: Option<string>, default: string): string {
    match annotation
    case None => default
    case Some(a) => a
  }

  /**
   * `parseTypedValue`: an unannotated string, double or integer reads as
   * `[s]`, `[f64]` or `[i64]` and is lenient; an annotated one is strict.
   * The integer alternative hands over the text of the whole node,
   * annotation included. An unrecognised node is reported with the
   * decimal-operator sentinel.
   */
  function ParseTypedValue(tv: TypedValue): (r: Result<Literal, Error>)
    ensures r.Success? ==> Describes(r.value.argType, r.value.value)
    ensures r.Success? ==> (r.value.strict <==> IsAnnotated(tv))
    ensures tv.OtherTypedValue? ==> r == Failure(Bare(ErrorUnknownDecimalOperator))
  {
    match tv
    case TypedString(annotation, token) =>
      var (v, t) :- ApplyUserType(UnquoteString(token), UserType(annotation, "[s]"));
      Success(Literal(v, t, annotation.Some?))
    case TypedDouble(annotation, token) =>
      var (v, t) :- ApplyUserType(token, UserType(annotation, "[f64]"));
      Success(Literal(v, t, annotation.Some?))
    case TypedInteger(annotation, numeral) =>
      var (v, t) :- ApplyUserType(AnnotatedText(annotation, numeral), UserType(annotation, "[i64]"));
      Success(Literal(v, t, annotation.Some?))
    case OtherTypedValue => Failure(Bare(ErrorUnknownDecimalOperator))
  }

  /**
   * `parseValue`: booleans are strict and true exactly when their text
   * lowers to "true"; `null` is the nil value and lenient; a list keeps
   * its text as a string; an unrecognised node is an invalid value.
   */
  function ParseValue(node: ValueNode): (r: Result<Literal, Error>)
    ensures r.Success? ==> Describes(r.value.argType, r.value.value)
    ensures r.Success? ==> (r.value.strict <==> node.BooleanLit? || (node.TypedVal? && IsAnnotated(node.typed)))
    ensures node.TypedVal? ==> r == ParseTypedValue(node.typed)
    ensures node.OtherValue? ==> r == Failure(Bare(ErrorInvalidValue))
  {
    match node
    case TypedVal(tv) => ParseTypedValue(tv)
    case BooleanLit(text) => Success(Literal(Bool(ToLower(text) == "true"), ArgTypeBoolean, true))
    case NullLit => Success(Literal(Null, ArgTypeNull, false))
    case ListOfInts(text) => Success(Literal(Str(text), ArgTypeList, false))
    case ListOfDoubles(text) => Success(Literal(Str(text), ArgTypeList, false))
    case ListOfStrings(text) => Success(Literal(Str(text), ArgTypeList, false))
    case OtherValue => Failure(Bare(ErrorInvalidValue))
  }

  /** Booleans are case-insensitive: only the lowered text matters. */
  lemma BooleanIgnoresCase(text: string)
    ensures ParseValue(BooleanLit(text)) == ParseValue(BooleanLit(ToLower(text)))
    ensures ParseValue(BooleanLit(text)) == Success(Literal(
      Bool(|text| == 4 && forall i :: 0 <= i < 4 ==> LowerChar(text[i]) == "true"[i]), ArgTypeBoolean, true))
  {
    ToLowerIdempotent(text);
    if |text| == 4 && ToLower(text) != "true" {
      var k :| 0 <= k < 4 && ToLower(text)[k] != "true"[k];
      assert LowerChar(text[k]) != "true"[k];
    }
  }

  /** `null` is the nil value, lenient. */
  lemma NullLiteral()
    ensures ParseValue(NullLit) == Success(Literal(Null, ArgTypeNull, false))
    ensures ParseValue(NullLit).value.value.Null?
  {
  }

  /** Lists are never parsed: each kind is kept as its text, lenient. */
  lemma ListsKeepTheirText(text: string)
    ensures ParseValue(ListOfInts(text)) == Success(Literal(Str(text), ArgTypeList, false))
    ensures ParseValue(ListOfDoubles(text)) == ParseValue(ListOfInts(text))
    ensures ParseValue(ListOfStrings(text)) == ParseValue(ListOfInts(text))
  {
  }

  /** An unannotated string token reads back as the string it quotes, leniently. */
  lemma UnannotatedStringLiteral(x: string)
    ensures ParseValue(TypedVal(TypedString(None, Quote(x)))) == Success(Literal(Str(x), ArgTypeString, false))
  {
    UnquoteOfQuote(x);
  }

  /**
   * An unannotated integer reads as an int64, leniently, and is an invalid
   * value outside the int64 range.
   */
  lemma UnannotatedIntegerLiteral(x: int)
    ensures ParseValue(TypedVal(TypedInteger(None, RenderInt(x)))) ==
      if I64Min <= x <= I64Max then Success(Literal(Int64(x), ArgTypeInteger64, false))
      else Failure(Bare(ErrorInvalidValue))
  {
    DefaultIntegerType(x);
    assert AnnotatedText(None, RenderInt(x)) == RenderInt(x);
  }

  /** An integer numeral under the default `[i64]` reads as that int64 when in range. */
  lemma DefaultIntegerType(x: int)
    ensures ApplyUserType(RenderInt(x), "[i64]") ==
      if I64Min <= x <= I64Max then Success((Int64(x), ArgTypeInteger64))
      else Failure(Bare(ErrorInvalidValue))
  {
    var raw := RenderInt(x);
    TagOfTagText(I64);
    assert "[" + TagText(I64) + "]" == "[i64]";
    ParseIntOfRenderInt(x, W64);
    assert ReadAs(raw, I64) == if I64Min <= x <= I64Max then Some(Int64(x)) else None;
  }

  /**
   * An unannotated double token written positionally (an optional '-', the
   * whole digits, and the fraction digits after a '.' when there are any)
   * reads as the exact float64 of those digits, leniently.
   */
  lemma UnannotatedDoubleLiteral(neg: bool, whole: string, frac: string)
    requires whole != [] && AllDigits(whole) && AllDigits(frac)
    ensures ParseValue(TypedVal(TypedDouble(None, Positional(neg, whole, frac)))) ==
      Success(Literal(Float64(Num(Signed(neg, DigitsValue(whole + frac)), -|frac|)), ArgTypeFloat64, false))
  {
    var raw := Positional(neg, whole, frac);
    TagOfTagText(F64);
    assert "[" + TagText(F64) + "]" == "[f64]";
    ParsePositional(neg, whole, frac);
    assert ApplyUserType(raw, "[f64]") == ApplyTag(raw, F64);
  }

  /** An unannotated double token holding an integer numeral reads as that exact float64. */
  lemma UnannotatedIntegralDouble(x: int)
    ensures ParseValue(TypedVal(TypedDouble(None, RenderInt(x)))) == Success(Literal(Float64(Num(x, 0)), ArgTypeFloat64, false))
  {
    var raw := RenderInt(x);
    TagOfTagText(F64);
    assert "[" + TagText(F64) + "]" == "[f64]";
    ParseNumeralOfRenderInt(x);
    assert ReadAs(raw, F64) == Some(Float64(Num(x, 0)));
    assert ApplyUserType(raw, "[f64]") == ApplyTag(raw, F64);
  }

  /**
   * A quoted integer under an integer annotation reads as that integer of
   * the annotated kind, strictly, when it fits the kind.
   */
  lemma AnnotatedQuotedInteger(tag: Tag, x: int)
    requires IsIntegerTag(tag)
    ensures var r := ParseValue(TypedVal(TypedString(Some("[" + TagText(tag) + "]"), Quote(RenderInt(x)))));
      && (r.Success? <==> FitsTag(tag, x))
      && (r.Success? ==> r.value.strict && IsInteger(r.value.value) && IntOf(r.value.value) == x)
  {
    UnquoteOfQuote(RenderInt(x));
    IntegerTagRoundTrip(x, tag);
  }

  /** Text starting with '[' is no integer and no numeral. */
  lemma BracketIsNoNumber(s: string)
    requires s != [] && s[0] == '['
    ensures ParseInt(s, W32) == None && ParseInt(s, W64) == None
    ensures ParseUint(s, W32) == None && ParseUint(s, W64) == None
    ensures ParseNumeral(s) == None
  {
    assert !IsDigit(s[0]);
    BracketIsNoMantissa(s);
    match ExponentIndex(s)
    case None =>
    case Some(k) =>
      assert IndexOf(s, 'e') == Some(k) || IndexOf(s, 'E') == Some(k);
      BracketIsNoMantissa(s[..k]);
  }

  lemma BracketIsNoMantissa(t: string)
    requires t == [] || t[0] == '['
    ensures ParseMantissa(t) == None
  {
    if t != [] {
      match IndexOf(t, '.')
      case None =>
        assert t + "" == t;
        assert !IsDigit(t[0]);
      case Some(k) =>
        assert t[0] != '.';
        assert (t[..k] + t[k + 1..])[0] == t[0];
    }
  }

  /** Under any tag, text starting with '[' reads only as a string or as the zero decimal. */
  lemma ReadBracketed(s: string, tag: Tag)
    requires s != [] && s[0] == '['
    ensures ReadAs(s, tag) == if tag.S? then Some(Str(s)) else if tag.D? then Some(Decimal(ZeroNum)) else None
  {
    BracketIsNoNumber(s);
  }

  /**
   * An annotated integer literal hands `applyUserType` its annotation too,
   * so every numeric annotation rejects it as an invalid value, `[s]`
   * yields the annotated text itself, and `[d]` yields the zero decimal.
   */
  lemma AnnotatedIntegerLiteral(annotation: string, numeral: string, tag: Tag)
    requires TagOf(StripBrackets(annotation)) == Some(tag) && HasPrefix(annotation, "[")
    ensures var r := ParseTypedValue(TypedInteger(Some(annotation), numeral));
      if tag.S? then r == Success(Literal(Str(annotation + numeral), ArgTypeString, true))
      else if tag.D? then r == Success(Literal(Decimal(ZeroNum), ArgTypeDecimal, true))
      else r == Failure(Bare(ErrorInvalidValue))
  {
    var s := AnnotatedText(Some(annotation), numeral);
    assert s[0] == '[';
    ReadBracketed(s, tag);
  }

  // ------------------------------------------------------- function calls

  /** One call argument from a parsed literal. */
  function ArgumentOf(lit: Literal): FunctionArgument {
    FunctionArgument(lit.argType, lit.value)
  }

  /** Argument `i` is the first one that does not parse. */
  predicate FirstFailure(vals: seq<ValueNode>, i: int)
    requires 0 <= i < |vals|
  {
    ParseValue(vals[i]).Failure? && forall j :: 0 <= j < i ==> ParseValue(vals[j]).Success?
  }

  /** The parse of each value, in order. */
  function ParseValues(vals: seq<ValueNode>): (ps: seq<Result<Literal, Error>>)
    ensures |ps| == |vals|
  {
    seq(|vals|, i requires 0 <= i < |vals| => ParseValue(vals[i]))
  }

  /**
   * The arguments from the values' parses, in order, stopping at the first
   * parse that failed.
   */
  function CollectArguments(ps: seq<Result<Literal, Error>>): Result<seq<FunctionArgument>, Error> {
    if ps == [] then Success([])
    else
      var args :- CollectArguments(ps[..|ps| - 1]);
      var lit :- ps[|ps| - 1];
      Success(args + [ArgumentOf(lit)])
  }

  /** The arguments of a call, in order, or the error of an argument that does not parse. */
  function ParsedArguments(vals: seq<ValueNode>): Result<seq<FunctionArgument>, Error> {
    CollectArguments(ParseValues(vals))
  }

  lemma {:induction false} CollectSucceeds(ps: seq<Result<Literal, Error>>)
    ensures CollectArguments(ps).Success? <==> forall i :: 0 <= i < |ps| ==> ps[i].Success?
    decreases |ps|
  {
    if ps != [] {
      var init := ps[..|ps| - 1];
      assert forall i :: 0 <= i < |init| ==> init[i] == ps[i];
      CollectSucceeds(init);
    }
  }

  lemma {:induction false} CollectInOrder(ps: seq<Result<Literal, Error>>)
    requires CollectArguments(ps).Success?
    ensures |CollectArguments(ps).value| == |ps|
    ensures forall i :: 0 <= i < |ps| ==> ps[i].Success? && CollectArguments(ps).value[i] == ArgumentOf(ps[i].value)
    decreases |ps|
  {
    if ps != [] {
      var init := ps[..|ps| - 1];
      CollectInOrder(init);
      forall i | 0 <= i < |init| ensures init[i] == ps[i] { }
    }
  }

  lemma {:induction false} CollectStopsAtFirstFailure(ps: seq<Result<Literal, Error>>, i: int)
    requires 0 <= i < |ps| && ps[i].Failure?
    requires forall j :: 0 <= j < i ==> ps[j].Success?
    ensures CollectArguments(ps) == Failure(ps[i].error)
    decreases |ps|
  {
    var init := ps[..|ps| - 1];
    assert forall j :: 0 <= j < |init| ==> init[j] == ps[j];
    if i < |ps| - 1 {
      CollectStopsAtFirstFailure(init, i);
    } else {
      CollectSucceeds(init);
    }
  }

  /** The arguments parse exactly when every value does. */
  lemma ParsedArgumentsSucceed(vals: seq<ValueNode>)
    ensures ParsedArguments(vals).Success? <==> forall i :: 0 <= i < |vals| ==> ParseValue(vals[i]).Success?
  {
    var ps := ParseValues(vals);
    CollectSucceeds(ps);
    assert forall i :: 0 <= i < |vals| ==> ps[i] == ParseValue(vals[i]);
  }

  /** When the arguments parse there is one per value, in the values' order. */
  lemma ParsedArgumentsInOrder(vals: seq<ValueNode>)
    requires ParsedArguments(vals).Success?
    ensures |ParsedArguments(vals).value| == |vals|
    ensures forall i :: 0 <= i < |vals| ==>
      ParseValue(vals[i]).Success? && ParsedArguments(vals).value[i] == ArgumentOf(ParseValue(vals[i]).value)
  {
    var ps := ParseValues(vals);
    CollectInOrder(ps);
    assert forall i :: 0 <= i < |vals| ==> ps[i] == ParseValue(vals[i]);
  }

  /** The error reported for a call's arguments is that of the first argument that does not parse. */
  lemma FirstArgumentErrorWins(vals: seq<ValueNode>, i: int)
    requires 0 <= i < |vals| && FirstFailure(vals, i)
    ensures ParsedArguments(vals) == Failure(ParseValue(vals[i]).error)
  {
    CollectStopsAtFirstFailure(ParseValues(vals), i);
  }

  /**
   * `parseFunctionCall` as a value: a missing node is an invalid function
   * call; a call without an argument list has no arguments.
   */
  function ParsedFunctionCall(ctx: Option<FunctionCallNode>): (r: Result<(string, seq<FunctionArgument>), Error>)
    ensures ctx.None? ==> r == Failure(Bare(ErrorInvalidFunctionCall))
    ensures r.Success? ==> r.value.0 == ctx.value.name
    ensures ctx.Some? && ctx.value.argList.None? ==> r == Success((ctx.value.name, []))
  {
    match ctx
    case None => Failure(Bare(ErrorInvalidFunctionCall))
    case Some(call) =>
      match call.argList
      case None => Success((call.name, []))
      case Some(vals) =>
        var args :- ParsedArguments(vals);
        Success((call.name, args))
  }
}
