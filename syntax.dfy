/**
 * The parse tree of the SCIM-style filter grammar, as the compiler sees
 * it: each alternative of the grammar's `query`, `value` and `typedValue`
 * rules, with the token texts the compiler reads.
 */
module Syntax {
  import opened Wrappers
  import opened Text

  /**
   * A scalar literal with an optional type annotation such as `[i32]`.
   * A string keeps its token with the quotes; an integer keeps the text of
   * its sign, digits and exponent.
   */
  datatype TypedValue =
    | TypedString(annotation: Option<string>, token: string)
    | TypedDouble(annotation: Option<string>, token: string)
    | TypedInteger(annotation: Option<string>, numeral: string)
    | OtherTypedValue

  /** The literal carries a type annotation. */
  predicate IsAnnotated(tv: TypedValue) {
    !tv.OtherTypedValue? && tv.annotation.Some?
  }

  /** The text of a whole node: its annotation followed by what it annotates. */
  function AnnotatedText(annotation: Option<string>, rest: string): (s: string)
    ensures annotation.None? ==> s == rest
    ensures annotation.Some? ==> |s| == |annotation.value| + |rest| && s[..|annotation.value|] == annotation.value
  {
    match annotation
    case None => rest
    case Some(a) => a + rest
  }

  /** The alternatives of the `value` rule; boolean and list nodes keep their text. */
  datatype ValueNode =
    | TypedVal(typed: TypedValue)
    | BooleanLit(text: string)
    | NullLit
    | ListOfInts(text: string)
    | ListOfDoubles(text: string)
    | ListOfStrings(text: string)
    | OtherValue

  /** `name(arg, ...)`; the argument list node is absent for `name()`. */
  datatype FunctionCallNode = FunctionCallNode(name: string, argList: Option<seq<ValueNode>>)

  /** An attribute path with its full text; it may itself be a function call. */
  datatype AttrPath = AttrPath(text: string, call: Option<FunctionCallNode>)

  /**
   * The left-hand side of a comparison: the grammar offers an attribute path
   * (which may be a call) or a bare function call.
   */
  datatype Subject = PathSubject(path: AttrPath) | CallSubject(call: FunctionCallNode)

  /** The alternatives of the `query` rule. */
  datatype Query =
    | ParenExp(not: bool, inner: Query)
    | PresentExp(path: AttrPath)
    | LogicalExp(left: Query, logicalOperator: string, right: Query)
    | CompareExp(subject: Subject, op: string, value: ValueNode)
    | OtherQuery

  datatype Root = Root(query: Query)

  /** The number of comparisons and presence tests in a query: one compiled leaf each. */
  function LeafCount(q: Query): nat {
    match q
    case ParenExp(_, inner) => LeafCount(inner)
    case PresentExp(_) => 1
    case LogicalExp(left, _, right) => LeafCount(left) + LeafCount(right)
    case CompareExp(_, _, _) => 1
    case OtherQuery => 0
  }

  /** Every logical operator token reads `and` or `or` in any letter case, as the lexer guarantees. */
  predicate WellLexed(q: Query) {
    match q
    case ParenExp(_, inner) => WellLexed(inner)
    case PresentExp(_) => true
    case LogicalExp(left, op, right) =>
      (ToLower(op) == "and" || ToLower(op) == "or") && WellLexed(left) && WellLexed(right)
    case CompareExp(_, _, _) => true
    case OtherQuery => true
  }
}
