/**
 * The comparison engine: given the bound (left) value, an operator, the
 * literal (right) value and the strict flag, decide the comparison or
 * report a classified error.
 */
module Compare {
  import opened Wrappers
  import opened Text
  import opened Numbers
  import opened Values
  import opened Errors

  /** The operators `compareOrdered` accepts: no symbolic aliases. */
  predicate IsOrderedOperator(op: string) {
    op == "eq" || op == "ne" || op == "gt" || op == "lt" || op == "ge" || op == "le"
  }

  /** The operators handed to `compareStringOps`. */
  predicate IsStringOperator(op: string) {
    op == "co" || op == "sw" || op == "ew" || op == "in" || op == "pr"
  }

  /** The decimal operators, each with its symbolic alias. */
  predicate IsDecimalOperator(op: string) {
    IsOrderedOperator(op) || op == "==" || op == "!=" || op == ">" || op == "<" || op == ">=" || op == "<="
  }

  /**
   * The meaning of a relational operator, given whether the left operand
   * is below and whether it is equal to the right one.
   */
  predicate Relates(op: string, below: bool, equal: bool) {
    if op == "eq" || op == "==" then equal
    else if op == "ne" || op == "!=" then !equal
    else if op == "gt" || op == ">" then !below && !equal
    else if op == "lt" || op == "<" then below
    else if op == "ge" || op == ">=" then !below
    else if op == "le" || op == "<=" then below || equal
    else false
  }

  /**
   * `compareDecimal`: exact comparison of the two decimal values; an
   * operator outside the six and their aliases is `ErrorUnknownDecimalOperator`.
   */
  function CompareDecimal(l: Num, op: string, r: Num): (res: Result<bool, Error>)
    ensures res.Success? <==> IsDecimalOperator(op)
    ensures res.Success? ==> res.value == Relates(op, NumValue(l) < NumValue(r), NumValue(l) == NumValue(r))
    ensures res.Failure? ==> res.error == Bare(ErrorUnknownDecimalOperator)
  {
    CompareNumsIsExact(l, r);
    var o := CompareNums(l, r);
    if op == "eq" || op == "==" then Success(o == Equal)
    else if op == "ne" || op == "!=" then Success(o != Equal)
    else if op == "gt" || op == ">" then Success(o == Greater)
    else if op == "lt" || op == "<" then Success(o == Less)
    else if op == "ge" || op == ">=" then Success(o != Less)
    else if op == "le" || op == "<=" then Success(o != Greater)
    else Failure(Bare(ErrorUnknownDecimalOperator))
  }

  /**
   * `compareOrdered`: one of the six relational operators applied to the
   * three-way order of the operands; anything else is an invalid operator
   * on the operands' type.
   */
  function CompareOrdered(o: Ordering, op: string, typeName: string): (res: Result<bool, Error>)
    ensures res.Success? <==> IsOrderedOperator(op)
    ensures res.Success? ==> res.value == Relates(op, o == Less, o == Equal)
    ensures res.Failure? ==> res.error == NewErrorInvalidOperator(op, typeName)
  {
    if op == "eq" then Success(o == Equal)
    else if op == "ne" then Success(o != Equal)
    else if op == "gt" then Success(o == Greater)
    else if op == "lt" then Success(o == Less)
    else if op == "ge" then Success(o == Greater || o == Equal)
    else if op == "le" then Success(o == Less || o == Equal)
    else Failure(NewErrorInvalidOperator(op, typeName))
  }

  /**
   * `compareStringOps`: `pr` is presence of the left value; the others
   * compare the two renderings, `in` with the operands the other way round.
   */
  function CompareStringOps(left: Value, op: string, right: Value): (res: Result<bool, Error>)
    ensures op == "pr" ==> res == Success(!left.Null?)
    ensures op == "co" ==> res == Success(exists i :: OccursAt(Render(left), Render(right), i))
    ensures op == "sw" ==> res == Success(HasPrefix(Render(left), Render(right)))
    ensures op == "ew" ==> res == Success(HasSuffix(Render(left), Render(right)))
    ensures op == "in" ==> res == Success(exists i :: OccursAt(Render(right), Render(left), i))
    ensures res.Failure? <==> !IsStringOperator(op)
    ensures res.Failure? ==> res.error == Bare(ErrorUnknownStringOperator)
  {
    if op == "pr" then Success(left != Null)
    else
      var l := Render(left);
      var r := Render(right);
      ContainsIffOccurs(l, r);
      ContainsIffOccurs(r, l);
      if op == "co" then Success(Contains(l, r))
      else if op == "sw" then Success(HasPrefix(l, r))
      else if op == "ew" then Success(HasSuffix(l, r))
      else if op == "in" then Success(Contains(r, l))
      else Failure(Bare(ErrorUnknownStringOperator))
  }

  /**
   * `newErrorTypeMismatch(reflect.TypeOf(right).String(), reflect.TypeOf(left).String())`:
   * the right operand's type first; a nil operand has no type and the
   * method call on it panics.
   */
  function MismatchError(right: Value, left: Value): Result<bool, Error> {
    match (TypeOf(right), TypeOf(left))
    case (Some(tr), Some(tl)) => Failure(NewErrorTypeMismatch(TypeName(tr), TypeName(tl)))
    case _ => Failure(RuntimePanic)
  }

  /** Lenient signed path: render the right operand and reparse it at the given width. */
  function LenientSigned(l: int, op: string, right: Value, w: Width, typeName: string): Result<bool, Error> {
    match ParseInt(Render(right), w)
    case None => Failure(Bare(ErrorInvalidValue))
    case Some(x) => CompareOrdered(CompareInts(l, x), op, typeName)
  }

  /** Lenient unsigned path. */
  function LenientUnsigned(l: int, op: string, right: Value, w: Width, typeName: string): Result<bool, Error> {
    match ParseUint(Render(right), w)
    case None => Failure(Bare(ErrorInvalidValue))
    case Some(x) => CompareOrdered(CompareInts(l, x), op, typeName)
  }

  /** Lenient floating-point path. */
  function LenientFloat(l: Num, op: string, right: Value, typeName: string): Result<bool, Error> {
    match ParseNumeral(Render(right))
    case None => Failure(Bare(ErrorInvalidValue))
    case Some(x) => CompareOrdered(CompareNums(l, x), op, typeName)
  }

  /**
   * `compareOperator`. The strict check runs first, for every operator;
   * then the string operators; then dispatch on the left value's dynamic
   * type. In strict mode the right value is asserted to the left's type
   * (the check above makes that assertion succeed); a decimal left asserts
   * a decimal right without any check.
   */
  function CompareOperator(left: Value, op: string, right: Value, strict: bool): (res: Result<bool, Error>)
    ensures StrictMismatch(left, right, strict) ==>
      res.Failure? && (res.error == RuntimePanic || Is(res.error, ErrorTypeMismatch))
    ensures !StrictMismatch(left, right, strict) && IsStringOperator(op) ==> res.Success?
    ensures res.Success? ==> IsStringOperator(op) || IsOrderedOperator(op) || (left.Decimal? && IsDecimalOperator(op))
    ensures res.Failure? ==> ComparisonError(res.error)
  {
    if strict && TypeOf(left) != TypeOf(right) then MismatchError(right, left)
    else if IsStringOperator(op) then CompareStringOps(left, op, right)
    else match left
      case Decimal(l) =>
        if right.Decimal? then CompareDecimal(l, op, right.d) else Failure(RuntimePanic)
      case Int(l) =>
        if !strict then LenientSigned(l, op, right, W64, "int64")
        else if right.Int? then CompareOrdered(CompareInts(l, right.i), op, "int64")
        else Failure(RuntimePanic)
      case Int32(l) =>
        if !strict then LenientSigned(l, op, right, W32, "int64")
        else if right.Int32? then CompareOrdered(CompareInts(l, right.i32), op, "int32")
        else Failure(RuntimePanic)
      case Int64(l) =>
        if !strict then LenientSigned(l, op, right, W64, "int64")
        else if right.Int64? then CompareOrdered(CompareInts(l, right.i64), op, "int64")
        else Failure(RuntimePanic)
      case Uint(l) =>
        if !strict then LenientUnsigned(l, op, right, W64, "uint")
        else if right.Uint? then CompareOrdered(CompareInts(l, right.u), op, "uint64")
        else Failure(RuntimePanic)
      case Uint32(l) =>
        if !strict then LenientUnsigned(l, op, right, W32, "uint32")
        else if right.Uint32? then CompareOrdered(CompareInts(l, right.u32), op, "uint64")
        else Failure(RuntimePanic)
      case Uint64(l) =>
        if !strict then LenientUnsigned(l, op, right, W64, "uint64")
        else if right.Uint64? then CompareOrdered(CompareInts(l, right.u64), op, "uint64")
        else Failure(RuntimePanic)
      case Float32(l) =>
        if !strict then LenientFloat(l, op, right, "float32")
        else if right.Float32? then CompareOrdered(CompareNums(l, right.f32), op, "float64")
        else Failure(RuntimePanic)
      case Float64(l) =>
        if !strict then LenientFloat(l, op, right, "float64")
        else if right.Float64? then CompareOrdered(CompareNums(l, right.f64), op, "float64")
        else Failure(RuntimePanic)
      case Str(l) =>
        if !strict then CompareOrdered(CompareStrings(l, Render(right)), op, "string")
        else if right.Str? then CompareOrdered(CompareStrings(l, right.s), op, "string")
        else Failure(RuntimePanic)
      case Bool(l) =>
        if op == "eq" then Success(right == Bool(l))
        else if op == "ne" then Success(right != Bool(l))
        else Failure(NewErrorInvalidOperator(op, "bool"))
      case Null => MismatchError(right, left)
      case Other(_, _) => MismatchError(right, left)
  }

  /**
   * The errors a comparison can end in: a panic, a type mismatch, an
   * invalid operator, an invalid value or an unknown decimal operator.
   * `ErrorUnknownStringOperator` is not among them: the string operators
   * are filtered before `compareStringOps` is called.
   */
  predicate ComparisonError(e: Error) {
    || e == RuntimePanic
    || Is(e, ErrorTypeMismatch)
    || Is(e, ErrorInvalidOperator)
    || e == Bare(ErrorInvalidValue)
    || e == Bare(ErrorUnknownDecimalOperator)
  }

  /** The two operands disagree on their dynamic type under a strict check. */
  predicate StrictMismatch(left: Value, right: Value, strict: bool) {
    strict && TypeOf(left) != TypeOf(right)
  }

  /**
   * Strict mode rejects operands of different dynamic types before any
   * operator is looked at, naming the right operand's type first.
   */
  lemma StrictMismatchComesFirst(left: Value, op: string, right: Value)
    requires TypeOf(left) != TypeOf(right) && !left.Null? && !right.Null?
    ensures var res := CompareOperator(left, op, right, true);
      res.Failure? && Is(res.error, ErrorTypeMismatch) &&
      Message(res.error) == "compare type mismatch: " + TypeName(TypeOf(right).value) + " and " + TypeName(TypeOf(left).value)
  {
  }

  /** `pr` is true exactly for a non-nil left value and never looks at the right one. */
  lemma PresenceIgnoresRight(left: Value, right: Value, strict: bool)
    requires !StrictMismatch(left, right, strict)
    ensures CompareOperator(left, "pr", right, strict) == Success(!left.Null?)
  {
  }

  /**
   * `co`, `sw`, `ew`: the right rendering occurs in, starts or ends the
   * left rendering, case-sensitively; `in`: the left rendering occurs in
   * the right one.
   */
  lemma StringOperatorsOnRenderings(left: Value, op: string, right: Value, strict: bool)
    requires !StrictMismatch(left, right, strict)
    requires op == "co" || op == "sw" || op == "ew" || op == "in"
    ensures var l, r := Render(left), Render(right);
      CompareOperator(left, op, right, strict) == Success(
        if op == "co" then exists i :: OccursAt(l, r, i)
        else if op == "sw" then HasPrefix(l, r)
        else if op == "ew" then HasSuffix(l, r)
        else exists i :: OccursAt(r, l, i))
  {
  }

  /** The width and unsignedness at which the lenient path reparses for an integer left value. */
  predicate FitsLeftKind(left: Value, x: int)
    requires IsInteger(left)
  {
    if left.Int? || left.Int64? then I64Min <= x <= I64Max
    else if left.Int32? then I32Min <= x <= I32Max
    else if left.Uint32? then 0 <= x <= U32Max
    else 0 <= x <= U64Max
  }

  /**
   * Lenient comparison of integers of any two kinds: the right value is
   * rendered and reparsed at the left kind's width, so it compares by
   * numeric value when it fits and is `ErrorInvalidValue` otherwise.
   */
  lemma LenientIntegerComparison(left: Value, op: string, right: Value)
    requires IsInteger(left) && IsInteger(right) && IsOrderedOperator(op)
    ensures CompareOperator(left, op, right, false) ==
      if FitsLeftKind(left, IntOf(right))
      then Success(Relates(op, IntOf(left) < IntOf(right), IntOf(left) == IntOf(right)))
      else Failure(Bare(ErrorInvalidValue))
  {
    RenderInteger(right);
    LenientIntegerReparse(left, op, right, IntOf(right));
  }

  /**
   * An integer compared leniently with a string holding a base-10 numeral
   * (`usr_id eq "17"`): the numeral is compared by value, within the left
   * kind's range.
   */
  lemma LenientIntegerWithNumeral(left: Value, op: string, x: int)
    requires IsInteger(left) && IsOrderedOperator(op)
    ensures CompareOperator(left, op, Str(RenderInt(x)), false) ==
      if FitsLeftKind(left, x)
      then Success(Relates(op, IntOf(left) < x, IntOf(left) == x))
      else Failure(Bare(ErrorInvalidValue))
  {
    var right := Str(RenderInt(x));
    assert Render(right) == RenderInt(x);
    LenientIntegerReparse(left, op, right, x);
  }

  /** An integer compared leniently with a bool: "true" and "false" are no numerals. */
  lemma LenientIntegerWithBool(left: Value, op: string, b: bool)
    requires IsInteger(left) && !IsStringOperator(op)
    ensures CompareOperator(left, op, Bool(b), false) == Failure(Bare(ErrorInvalidValue))
  {
    var t := Render(Bool(b));
    assert !IsDigit(t[0]) && !IsSign(t[0]);
  }

  /**
   * An integer compared leniently with a float that `%v` renders in
   * exponent form (one million and above, or below 0.0001): the text
   * never parses as an integer, whatever its value.
   */
  lemma LenientIntegerWithExponentFloat(left: Value, op: string, right: Value)
    requires IsInteger(left) && !IsStringOperator(op)
    requires (right.Float32? || right.Float64?) && ExponentForm(NumOf(right))
    ensures CompareOperator(left, op, right, false) == Failure(Bare(ErrorInvalidValue))
  {
    ScientificIsNoInteger(NumOf(right), W32);
    ScientificIsNoInteger(NumOf(right), W64);
  }

  /** `5 lt float64(1e6)`, compared leniently, is an invalid value and not true. */
  lemma IntegerBelowMillionFloat()
    ensures CompareOperator(Int(5), "lt", Float64(Num(10000000, -1)), false) == Failure(Bare(ErrorInvalidValue))
  {
    MillionRendersInExponentForm();
    LenientIntegerWithExponentFloat(Int(5), "lt", Float64(Num(10000000, -1)));
  }

  /** The lenient integer path on any right value whose text is the base-10 numeral of `x`. */
  lemma LenientIntegerReparse(left: Value, op: string, right: Value, x: int)
    requires IsInteger(left) && Render(right) == RenderInt(x) && IsOrderedOperator(op)
    ensures CompareOperator(left, op, right, false) ==
      if FitsLeftKind(left, x)
      then Success(Relates(op, IntOf(left) < x, IntOf(left) == x))
      else Failure(Bare(ErrorInvalidValue))
  {
    if left.Int? || left.Int32? || left.Int64? {
      LenientSignedKinds(left, op, right, x);
    } else {
      LenientUnsignedKinds(left, op, right, x);
    }
  }

  lemma LenientSignedKinds(left: Value, op: string, right: Value, x: int)
    requires (left.Int? || left.Int32? || left.Int64?) && Render(right) == RenderInt(x) && IsOrderedOperator(op)
    ensures CompareOperator(left, op, right, false) ==
      if FitsLeftKind(left, x)
      then Success(Relates(op, IntOf(left) < x, IntOf(left) == x))
      else Failure(Bare(ErrorInvalidValue))
  {
    match left
    case Int(l) => LenientSignedReparse(l, op, right, W64, "int64", x);
    case Int32(l) => LenientSignedReparse(l, op, right, W32, "int64", x);
    case Int64(l) => LenientSignedReparse(l, op, right, W64, "int64", x);
  }

  lemma LenientUnsignedKinds(left: Value, op: string, right: Value, x: int)
    requires (left.Uint? || left.Uint32? || left.Uint64?) && Render(right) == RenderInt(x) && IsOrderedOperator(op)
    ensures CompareOperator(left, op, right, false) ==
      if FitsLeftKind(left, x)
      then Success(Relates(op, IntOf(left) < x, IntOf(left) == x))
      else Failure(Bare(ErrorInvalidValue))
  {
    match left
    case Uint(l) => LenientUnsignedReparse(l, op, right, W64, "uint", x);
    case Uint32(l) => LenientUnsignedReparse(l, op, right, W32, "uint32", x);
    case Uint64(l) => LenientUnsignedReparse(l, op, right, W64, "uint64", x);
  }

  /** The signed lenient path on a right value rendered as `x`: `x` itself when in range. */
  lemma LenientSignedReparse(l: int, op: string, right: Value, w: Width, typeName: string, x: int)
    requires Render(right) == RenderInt(x) && IsOrderedOperator(op)
    ensures LenientSigned(l, op, right, w, typeName) ==
      if SignedMin(w) <= x <= SignedMax(w)
      then Success(Relates(op, l < x, l == x))
      else Failure(Bare(ErrorInvalidValue))
  {
    ParseIntOfRenderInt(x, w);
  }

  /** The unsigned lenient path on a right value rendered as `x`: a negative one never parses. */
  lemma LenientUnsignedReparse(l: int, op: string, right: Value, w: Width, typeName: string, x: int)
    requires Render(right) == RenderInt(x) && IsOrderedOperator(op)
    ensures LenientUnsigned(l, op, right, w, typeName) ==
      if 0 <= x <= UnsignedMax(w)
      then Success(Relates(op, l < x, l == x))
      else Failure(Bare(ErrorInvalidValue))
  {
    if x < 0 {
      ParseUintRefusesSign(x, w);
    } else {
      ParseUintOfRenderNat(x, w);
    }
  }

  /** Strict comparison of two integers of the same kind compares their values. */
  lemma StrictIntegerComparison(left: Value, op: string, right: Value)
    requires IsInteger(left) && TypeOf(left) == TypeOf(right) && IsOrderedOperator(op)
    ensures CompareOperator(left, op, right, true) ==
      Success(Relates(op, IntOf(left) < IntOf(right), IntOf(left) == IntOf(right)))
  {
  }

  /** A float compared leniently with an integer compares by exact value. */
  lemma LenientFloatWithInteger(left: Value, op: string, right: Value)
    requires (left.Float32? || left.Float64?) && IsInteger(right) && IsOrderedOperator(op)
    ensures CompareOperator(left, op, right, false) ==
      Success(Relates(op, NumValue(NumOf(left)) < IntOf(right) as real, NumValue(NumOf(left)) == IntOf(right) as real))
  {
    var x := IntOf(right);
    RenderInteger(right);
    ParseNumeralOfRenderInt(x);
    assert NumValue(Num(x, 0)) == x as real;
    LenientFloatReparse(left, op, right, x as real);
  }

  /**
   * A float compared leniently with a float or a decimal compares by exact
   * value: the right value's `%v` text reads back to that value.
   */
  lemma LenientFloatWithNumber(left: Value, op: string, right: Value)
    requires (left.Float32? || left.Float64?) && IsOrderedOperator(op)
    requires right.Decimal? || ((right.Float32? || right.Float64?) && ExponentFits(NumOf(right)))
    ensures CompareOperator(left, op, right, false) ==
      Success(Relates(op, NumValue(NumOf(left)) < NumValue(NumOf(right)), NumValue(NumOf(left)) == NumValue(NumOf(right))))
  {
    RenderNumberParsesBack(right);
    LenientFloatReparse(left, op, right, NumValue(NumOf(right)));
  }

  /** The floating-point lenient path on a right value whose text reads back as the value `v`. */
  lemma LenientFloatReparse(left: Value, op: string, right: Value, v: real)
    requires (left.Float32? || left.Float64?) && IsOrderedOperator(op)
    requires ParseNumeral(Render(right)).Some? && NumValue(ParseNumeral(Render(right)).value) == v
    ensures CompareOperator(left, op, right, false) ==
      Success(Relates(op, NumValue(NumOf(left)) < v, NumValue(NumOf(left)) == v))
  {
    var r := ParseNumeral(Render(right)).value;
    CompareNumsIsExact(NumOf(left), r);
    match left
    case Float32(f) => assert LenientFloat(f, op, right, "float32") == CompareOrdered(CompareNums(f, r), op, "float32");
    case Float64(f) => assert LenientFloat(f, op, right, "float64") == CompareOrdered(CompareNums(f, r), op, "float64");
  }

  /**
   * A string left value: leniently the right value is rendered first;
   * either way the strings compare lexicographically.
   */
  lemma StringComparison(l: string, op: string, right: Value, strict: bool)
    requires !StrictMismatch(Str(l), right, strict) && IsOrderedOperator(op)
    ensures var r := Render(right);
      CompareOperator(Str(l), op, right, strict) ==
        Success(Relates(op, exists k :: DiffersAt(l, r, k), l == r))
  {
    CompareStringsIsLexicographic(l, Render(right));
  }

  /**
   * A bool left value: `eq` holds iff the right value is the same bool (a
   * right value of another type is just unequal), `ne` is its negation,
   * and every other non-string operator is invalid on bool.
   */
  lemma BoolComparison(l: bool, op: string, right: Value, strict: bool)
    requires !StrictMismatch(Bool(l), right, strict) && !IsStringOperator(op)
    ensures var res := CompareOperator(Bool(l), op, right, strict);
      && (op == "eq" ==> res == Success(right.Bool? && right.b == l))
      && (op == "ne" ==> res == Success(!(right.Bool? && right.b == l)))
      && (op != "eq" && op != "ne" ==> res == Failure(NewErrorInvalidOperator(op, "bool")))
  {
  }

  /**
   * A decimal left value always goes to `compareDecimal`; a right value
   * that is not a decimal fails the unchecked type assertion.
   */
  lemma DecimalComparison(l: Num, op: string, right: Value, strict: bool)
    requires !StrictMismatch(Decimal(l), right, strict) && !IsStringOperator(op)
    ensures right.Decimal? ==> CompareOperator(Decimal(l), op, right, strict) == CompareDecimal(l, op, right.d)
    ensures !right.Decimal? ==> CompareOperator(Decimal(l), op, right, strict) == Failure(RuntimePanic)
  {
  }

  /**
   * An ordered kind with an operator outside the six: strict mode reports
   * the operator on the (possibly widened) type; lenient mode reparses the
   * right value first, so a failed reparse wins.
   */
  lemma UnknownOperatorOnStrings(l: string, op: string, right: Value, strict: bool)
    requires !StrictMismatch(Str(l), right, strict)
    requires !IsOrderedOperator(op) && !IsStringOperator(op)
    ensures CompareOperator(Str(l), op, right, strict) == Failure(NewErrorInvalidOperator(op, "string"))
  {
  }

  /** A left value of an unlisted type is a type mismatch (or a panic when the right one is nil). */
  lemma UnlistedKindMismatch(name: string, text: string, op: string, right: Value, strict: bool)
    requires !StrictMismatch(Other(name, text), right, strict) && !IsStringOperator(op)
    ensures CompareOperator(Other(name, text), op, right, strict) ==
      if right.Null? then Failure(RuntimePanic)
      else Failure(NewErrorTypeMismatch(TypeName(TypeOf(right).value), name))
  {
  }

  /** A nil left value with a non-string operator panics: it has no type name to report. */
  lemma NilLeftPanics(op: string, right: Value, strict: bool)
    requires !StrictMismatch(Null, right, strict) && !IsStringOperator(op)
    ensures CompareOperator(Null, op, right, strict) == Failure(RuntimePanic)
  {
  }
}
