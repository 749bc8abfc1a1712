/**
 * The records the compiler produces and the evaluator consumes: how a
 * parameter's input is given, how a literal's value is to be read, the
 * parameters themselves and the expression tree over them.
 */
module Models {
  import opened Wrappers
  import opened Values

  /** Whether a parameter names a function call or a plain attribute. */
  datatype InputType = FunctionCall | Expression

  /** The integer each input type stands for, in declaration order. */
  function InputTypeOrdinal(t: InputType): (n: nat)
    ensures n < 2
    ensures n == 0 <==> t == FunctionCall
  {
    match t
    case FunctionCall => 0
    case Expression => 1
  }

  /** How to interpret a literal's value. */
  datatype ArgumentType =
    | ArgTypeUnknown
    | ArgTypeString
    | ArgTypeInteger
    | ArgTypeUnsignedInteger
    | ArgTypeFloat64
    | ArgTypeBoolean
    | ArgTypeNull
    | ArgTypeList
    | ArgTypeFloat32
    | ArgTypeInteger32
    | ArgTypeInteger64
    | ArgTypeUnsignedInteger64
    | ArgTypeUnsignedInteger32
    | ArgTypeDecimal

  /** The integer each argument type stands for, in declaration order. */
  function ArgumentTypeOrdinal(t: ArgumentType): (n: nat)
    ensures n < 14
  {
    match t
    case ArgTypeUnknown => 0
    case ArgTypeString => 1
    case ArgTypeInteger => 2
    case ArgTypeUnsignedInteger => 3
    case ArgTypeFloat64 => 4
    case ArgTypeBoolean => 5
    case ArgTypeNull => 6
    case ArgTypeList => 7
    case ArgTypeFloat32 => 8
    case ArgTypeInteger32 => 9
    case ArgTypeInteger64 => 10
    case ArgTypeUnsignedInteger64 => 11
    case ArgTypeUnsignedInteger32 => 12
    case ArgTypeDecimal => 13
  }

  /** The argument type an integer stands for, if any. */
  function ArgumentTypeOf(n: int): (r: Option<ArgumentType>)
    ensures r.Some? <==> 0 <= n < 14
  {
    if n == 0 then Some(ArgTypeUnknown)
    else if n == 1 then Some(ArgTypeString)
    else if n == 2 then Some(ArgTypeInteger)
    else if n == 3 then Some(ArgTypeUnsignedInteger)
    else if n == 4 then Some(ArgTypeFloat64)
    else if n == 5 then Some(ArgTypeBoolean)
    else if n == 6 then Some(ArgTypeNull)
    else if n == 7 then Some(ArgTypeList)
    else if n == 8 then Some(ArgTypeFloat32)
    else if n == 9 then Some(ArgTypeInteger32)
    else if n == 10 then Some(ArgTypeInteger64)
    else if n == 11 then Some(ArgTypeUnsignedInteger64)
    else if n == 12 then Some(ArgTypeUnsignedInteger32)
    else if n == 13 then Some(ArgTypeDecimal)
    else None
  }

  /** The enumeration is a bijection between the argument types and 0..13. */
  lemma ArgumentTypeOrdinalRoundTrip(t: ArgumentType, n: int)
    ensures ArgumentTypeOf(ArgumentTypeOrdinal(t)) == Some(t)
    ensures 0 <= n < 14 ==> ArgumentTypeOrdinal(ArgumentTypeOf(n).value) == n
  {
  }

  /**
   * What each argument type says about the value beside it: the Go type of
   * the value; a list keeps its source text as a string; `unknown`
   * describes no value.
   */
  predicate Describes(t: ArgumentType, v: Value) {
    match t
    case ArgTypeUnknown => false
    case ArgTypeString => v.Str?
    case ArgTypeInteger => v.Int?
    case ArgTypeUnsignedInteger => v.Uint?
    case ArgTypeFloat64 => v.Float64?
    case ArgTypeBoolean => v.Bool?
    case ArgTypeNull => v.Null?
    case ArgTypeList => v.Str?
    case ArgTypeFloat32 => v.Float32?
    case ArgTypeInteger32 => v.Int32?
    case ArgTypeInteger64 => v.Int64?
    case ArgTypeUnsignedInteger64 => v.Uint64?
    case ArgTypeUnsignedInteger32 => v.Uint32?
    case ArgTypeDecimal => v.Decimal?
  }

  /** One argument of a function call. */
  datatype FunctionArgument = FunctionArgument(argumentType: ArgumentType, value: Value)

  /** A leaf of a query: what to compare, how, and against which literal. */
  datatype Parameter = Parameter(
    id: int,
    name: string,
    inputType: InputType,
    functionArguments: seq<FunctionArgument>,
    strictTypeCheck: bool,
    expression: ArgumentType,
    operator: string,
    compareValue: Value)

  /**
   * A node of the expression tree: an `and`/`or` node with two children,
   * or a leaf carrying its parameter. The children and the parameter are
   * pointers in the program, hence optional here.
   */
  datatype ExprTree = ExprTree(
    not: bool,
    op: string,
    left: Option<ExprTree>,
    right: Option<ExprTree>,
    param: Option<Parameter>)

  predicate IsLogical(op: string) {
    op == "and" || op == "or"
  }

  /** The shape the compiler builds: logical nodes have both children, leaves a parameter. */
  predicate WellShaped(t: ExprTree) {
    if IsLogical(t.op) then
      t.left.Some? && t.right.Some? && t.param.None? && WellShaped(t.left.value) && WellShaped(t.right.value)
    else
      t.op == "" && t.left.None? && t.right.None? && t.param.Some?
  }

  /** The parameters at the leaves, left to right. */
  function LeafParams(t: ExprTree): seq<Parameter> {
    if IsLogical(t.op) && t.left.Some? && t.right.Some? then
      LeafParams(t.left.value) + LeafParams(t.right.value)
    else if t.param.Some? then [t.param.value]
    else []
  }

  /** A leaf holding one parameter. */
  function Leaf(p: Parameter): (t: ExprTree)
    ensures WellShaped(t) && LeafParams(t) == [p]
  {
    ExprTree(false, "", None, None, Some(p))
  }

  /** Every parameter's id is its position in the table. */
  predicate IdsAreIndices(params: seq<Parameter>) {
    forall i :: 0 <= i < |params| ==> params[i].id == i
  }

  /** What the caller supplies for a parameter when evaluating a rule. */
  datatype Evaluation = Evaluation(param: Parameter, result: Value)

  /** Options for compiling a query. */
  datatype Config = Config(debugMode: bool)
}
