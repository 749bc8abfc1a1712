/**
 * The runtime values the engine compares: a closed union with one
 * constructor per Go dynamic type the comparison engine dispatches on,
 * `Null` for a nil interface, and `Other` for any dynamic type it does not
 * list. Also the two views the engine takes of a value: its dynamic type
 * (`reflect.TypeOf`) and its text (`fmt.Sprint`).
 */
module Values {
  import opened Wrappers
  import opened Numbers

  datatype Value =
    | Int(i: I64)
    | Int32(i32: I32)
    | Int64(i64: I64)
    | Uint(u: U64)
    | Uint32(u32: U32)
    | Uint64(u64: U64)
    | Float32(f32: Num)
    | Float64(f64: Num)
    | Str(s: string)
    | Bool(b: bool)
    | Decimal(d: Num)
    | Null
      /** A dynamic type the engine does not list, with its type name and its `fmt.Sprint` text. */
    | Other(typeName: string, text: string)

  /** The dynamic types of non-nil values. */
  datatype GoType =
    | TInt | TInt32 | TInt64 | TUint | TUint32 | TUint64
    | TFloat32 | TFloat64 | TString | TBool | TDecimal
    | TOther(name: string)

  /** `reflect.TypeOf(v)`: `None` for nil. */
  function TypeOf(v: Value): (t: Option<GoType>)
    ensures t.None? <==> v.Null?
  {
    match v
    case Int(_) => Some(TInt)
    case Int32(_) => Some(TInt32)
    case Int64(_) => Some(TInt64)
    case Uint(_) => Some(TUint)
    case Uint32(_) => Some(TUint32)
    case Uint64(_) => Some(TUint64)
    case Float32(_) => Some(TFloat32)
    case Float64(_) => Some(TFloat64)
    case Str(_) => Some(TString)
    case Bool(_) => Some(TBool)
    case Decimal(_) => Some(TDecimal)
    case Null => None
    case Other(name, _) => Some(TOther(name))
  }

  /** `reflect.Type.String()`: a listed type's name names it alone. */
  function TypeName(t: GoType): (name: string)
    ensures !t.TOther? ==> BuiltinType(name) == Some(t)
  {
    match t
    case TInt => "int"
    case TInt32 => "int32"
    case TInt64 => "int64"
    case TUint => "uint"
    case TUint32 => "uint32"
    case TUint64 => "uint64"
    case TFloat32 => "float32"
    case TFloat64 => "float64"
    case TString => "string"
    case TBool => "bool"
    case TDecimal => "decimal.Decimal"
    case TOther(name) => name
  }

  /** The listed type a `reflect.Type.String()` text names, if any. */
  function BuiltinType(name: string): Option<GoType> {
    match name
    case "int" => Some(TInt)
    case "int32" => Some(TInt32)
    case "int64" => Some(TInt64)
    case "uint" => Some(TUint)
    case "uint32" => Some(TUint32)
    case "uint64" => Some(TUint64)
    case "float32" => Some(TFloat32)
    case "float64" => Some(TFloat64)
    case "string" => Some(TString)
    case "bool" => Some(TBool)
    case "decimal.Decimal" => Some(TDecimal)
    case _ => None
  }

  /** Two values have the same dynamic type exactly when they are built by the same constructor. */
  lemma SameTypeIsSameConstructor(a: Value, b: Value)
    requires !a.Other? && !b.Other?
    ensures TypeOf(a) == TypeOf(b) <==>
      (a.Int? && b.Int?) || (a.Int32? && b.Int32?) || (a.Int64? && b.Int64?) ||
      (a.Uint? && b.Uint?) || (a.Uint32? && b.Uint32?) || (a.Uint64? && b.Uint64?) ||
      (a.Float32? && b.Float32?) || (a.Float64? && b.Float64?) || (a.Str? && b.Str?) ||
      (a.Bool? && b.Bool?) || (a.Decimal? && b.Decimal?) || (a.Null? && b.Null?)
  {
  }

  /**
   * `fmt.Sprint(v)` and `%v`: integers in base 10, strings as they are,
   * booleans as "true"/"false", nil as "<nil>", decimals by
   * `Decimal.String()` (always positional) and floats by `%g` with the
   * shortest digits of their value.
   */
  function Render(v: Value): string {
    match v
    case Int(x) => RenderInt(x)
    case Int32(x) => RenderInt(x)
    case Int64(x) => RenderInt(x)
    case Uint(x) => RenderInt(x)
    case Uint32(x) => RenderInt(x)
    case Uint64(x) => RenderInt(x)
    case Float32(n) => RenderFloat(n)
    case Float64(n) => RenderFloat(n)
    case Str(s) => s
    case Bool(b) => if b then "true" else "false"
    case Decimal(n) => RenderNum(n)
    case Null => "<nil>"
    case Other(_, text) => text
  }

  /** The integer kinds. */
  predicate IsInteger(v: Value) {
    v.Int? || v.Int32? || v.Int64? || v.Uint? || v.Uint32? || v.Uint64?
  }

  function IntOf(v: Value): int
    requires IsInteger(v)
  {
    match v
    case Int(x) => x
    case Int32(x) => x
    case Int64(x) => x
    case Uint(x) => x
    case Uint32(x) => x
    case Uint64(x) => x
  }

  /** Every integer renders as the base-10 text of its value, which reads back as that value. */
  lemma RenderInteger(v: Value)
    requires IsInteger(v)
    ensures Render(v) == RenderInt(IntOf(v))
    ensures ParseNumeral(Render(v)) == Some(Num(IntOf(v), 0))
  {
    ParseNumeralOfRenderInt(IntOf(v));
  }

  /** The decimal value of a float or a decimal. */
  function NumOf(v: Value): Num
    requires v.Float32? || v.Float64? || v.Decimal?
  {
    match v
    case Float32(n) => n
    case Float64(n) => n
    case Decimal(n) => n
  }

  /**
   * The text of a float or a decimal reads back as a numeral of the same
   * value (for floats: with a leading-digit exponent that fits 32 bits,
   * as every `float64` has).
   */
  lemma RenderNumberParsesBack(v: Value)
    requires v.Decimal? || ((v.Float32? || v.Float64?) && ExponentFits(NumOf(v)))
    ensures ParseNumeral(Render(v)).Some?
    ensures NumValue(ParseNumeral(Render(v)).value) == NumValue(NumOf(v))
  {
    if v.Decimal? {
      RenderNumParsesBack(v.d);
    } else {
      RenderFloatParsesBack(NumOf(v));
    }
  }
}
