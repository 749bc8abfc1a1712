/**
 * The compiler: a visitor over the parse tree that builds the expression
 * tree and, as a side effect, the table of parameters, each new parameter
 * taking the table's length as its id.
 */
module Visit {
  import opened Wrappers
  import opened Text
  import opened Values
  import opened Errors
  import opened Models
  import opened Syntax
  import opened Literals
  import opened ExprTrees

  /** The outcome of compiling a subtree, with the table as it stands afterwards. */
  datatype Step = Step(result: Result<ExprTree, Error>, table: seq<Parameter>)

  /** The parameter of a presence test: operator `pr`, no literal, lenient. */
  function PresenceParameter(id: int, name: string): Parameter {
    Parameter(id, name, Expression, [], false, ArgTypeUnknown, "pr", Null)
  }

  /**
   * The parameter of a comparison. A function-call path is parsed first,
   * then the literal; the operator is lowered. A comparison whose left side
   * is not an attribute path dereferences a missing node.
   */
  function CompareParameter(id: int, subject: Subject, op: string, value: ValueNode): (r: Result<Parameter, Error>)
    ensures r.Success? ==> r.value.id == id && r.value.operator == ToLower(op)
  {
    match subject
    case CallSubject(_) => Failure(RuntimePanic)
    case PathSubject(path) =>
      if path.call.Some? then
        var (name, args) :- ParsedFunctionCall(path.call);
        var lit :- ParseValue(value);
        Success(Parameter(id, name, FunctionCall, args, lit.strict, lit.argType, ToLower(op), lit.value))
      else
        var lit :- ParseValue(value);
        Success(Parameter(id, path.text, Expression, [], lit.strict, lit.argType, ToLower(op), lit.value))
  }

  /**
   * Compiling a query against the parameter table built so far: the
   * visitor's methods, with the table threaded through. The table only
   * grows.
   */
  function Compile(q: Query, table: seq<Parameter>): (s: Step)
    ensures table <= s.table
    decreases q
  {
    match q
    case ParenExp(not, inner) =>
      var sub := Compile(inner, table);
      if sub.result.Failure? then sub
      else Step(Success(if not then Negated(sub.result.value) else sub.result.value), sub.table)
    case PresentExp(path) =>
      var p := PresenceParameter(|table|, path.text);
      Step(Success(Leaf(p)), table + [p])
    case LogicalExp(l, op, r) =>
      var left := Compile(l, table);
      if left.result.Failure? then left
      else
        var right := Compile(r, left.table);
        if right.result.Failure? then right
        else Step(Success(ExprTree(false, ToLower(op), Some(left.result.value), Some(right.result.value), None)), right.table)
    case CompareExp(subject, op, value) =>
      (match CompareParameter(|table|, subject, op, value)
       case Failure(e) => Step(Failure(e), table)
       case Success(p) => Step(Success(Leaf(p)), table + [p]))
    case OtherQuery => Step(Failure(Bare(ErrorInvalidExpression)), table)
  }

  /** The logical case of `Compile`: left first, then right on the table the left one left behind. */
  lemma {:induction false} UnfoldLogical(l: Query, op: string, r: Query, table: seq<Parameter>)
    requires Compile(LogicalExp(l, op, r), table).result.Success?
    ensures var left := Compile(l, table);
      left.result.Success? && Compile(r, left.table).result.Success? &&
      Compile(LogicalExp(l, op, r), table) ==
        Step(Success(ExprTree(false, ToLower(op), Some(left.result.value), Some(Compile(r, left.table).result.value), None)),
             Compile(r, left.table).table)
  {
  }

  /**
   * On success the table grows by exactly one parameter per comparison or
   * presence test; for a lexically valid query these are the tree's leaf
   * parameters, left to right, and the tree has the evaluator's shape.
   */
  lemma {:induction false} CompileAppendsLeaves(q: Query, table: seq<Parameter>)
    requires Compile(q, table).result.Success?
    ensures var s := Compile(q, table);
      |s.table| == |table| + LeafCount(q) &&
      (WellLexed(q) ==> WellShaped(s.result.value) && s.table == table + LeafParams(s.result.value))
    decreases q
  {
    match q
    case ParenExp(not, inner) =>
      CompileAppendsLeaves(inner, table);
    case PresentExp(_) =>
    case LogicalExp(l, op, r) =>
      UnfoldLogical(l, op, r, table);
      var left := Compile(l, table);
      CompileAppendsLeaves(l, table);
      CompileAppendsLeaves(r, left.table);
      if WellLexed(q) {
        assert ToLower(op) == "and" || ToLower(op) == "or";
      }
    case CompareExp(_, _, _) =>
  }

  /** Compiling keeps a table whose ids are their positions so: each new id is the length before it. */
  lemma {:induction false} CompileKeepsIdsIndices(q: Query, table: seq<Parameter>)
    requires IdsAreIndices(table)
    ensures IdsAreIndices(Compile(q, table).table)
    decreases q
  {
    match q
    case ParenExp(_, inner) =>
      CompileKeepsIdsIndices(inner, table);
    case PresentExp(_) =>
    case LogicalExp(l, op, r) =>
      CompileKeepsIdsIndices(l, table);
      CompileKeepsIdsIndices(r, Compile(l, table).table);
    case CompareExp(_, _, _) =>
    case OtherQuery =>
  }

  /** The visitor: its parameter table grows as the tree is compiled. */
  class QueryVisitor {
    var parameters: seq<Parameter>

    constructor ()
      ensures parameters == []
    {
      parameters := [];
    }

    /** `visitRoot`: compile the root's query. */
    method VisitRoot(root: Root) returns (r: Result<ExprTree, Error>)
      modifies this
      ensures r == Compile(root.query, old(parameters)).result
      ensures parameters == Compile(root.query, old(parameters)).table
    {
      r := Visit(root.query);
    }

    /** `visit`: dispatch on the four query shapes; anything else is an invalid expression. */
    method Visit(q: Query) returns (r: Result<ExprTree, Error>)
      modifies this
      ensures r == Compile(q, old(parameters)).result
      ensures parameters == Compile(q, old(parameters)).table
      decreases q, 1
    {
      match q {
        case ParenExp(_, _) => r := VisitParenExp(q);
        case LogicalExp(_, _, _) => r := VisitLogicalExp(q);
        case PresentExp(_) => r := VisitPresentExp(q);
        case CompareExp(_, _, _) => r := VisitCompareExp(q);
        case OtherQuery => r := Failure(Bare(ErrorInvalidExpression));
      }
    }

    /** `visitParenExp`: compile the inner query and flip the result's `not` once for a NOT token. */
    method VisitParenExp(q: Query) returns (r: Result<ExprTree, Error>)
      requires q.ParenExp?
      modifies this
      ensures r == Compile(q, old(parameters)).result
      ensures parameters == Compile(q, old(parameters)).table
      decreases q, 0
    {
      var sub := Visit(q.inner);
      if sub.Failure? {
        return sub;
      }
      var subExp := sub.value;
      if q.not {
        subExp := subExp.(not := !subExp.not);
      }
      return Success(subExp);
    }

    /** `visitPresentExp`: a new `pr` parameter, appended to the table, in a new leaf. */
    method VisitPresentExp(q: Query) returns (r: Result<ExprTree, Error>)
      requires q.PresentExp?
      modifies this
      ensures r == Compile(q, old(parameters)).result
      ensures parameters == Compile(q, old(parameters)).table
    {
      var name := GetAttrName(q.path);
      var p := Parameter(|parameters|, name, Expression, [], false, ArgTypeUnknown, "pr", Null);
      parameters := parameters + [p];
      return Success(Leaf(p));
    }

    /** `visitLogicalExp`: compile left then right, and join them under the lowered operator. */
    method VisitLogicalExp(q: Query) returns (r: Result<ExprTree, Error>)
      requires q.LogicalExp?
      modifies this
      ensures r == Compile(q, old(parameters)).result
      ensures parameters == Compile(q, old(parameters)).table
      decreases q, 0
    {
      var leftAny := Visit(q.left);
      if leftAny.Failure? {
        return leftAny;
      }
      var rightAny := Visit(q.right);
      if rightAny.Failure? {
        return rightAny;
      }
      var op := ToLower(q.logicalOperator);
      return Success(ExprTree(false, op, Some(leftAny.value), Some(rightAny.value), None));
    }

    /**
     * `visitCompareExp`: name and arguments from the path, then the
     * literal; the new parameter is appended only once both have parsed.
     */
    method VisitCompareExp(q: Query) returns (r: Result<ExprTree, Error>)
      requires q.CompareExp?
      modifies this
      ensures r == Compile(q, old(parameters)).result
      ensures parameters == Compile(q, old(parameters)).table
    {
      if q.subject.CallSubject? {
        return Failure(RuntimePanic);
      }
      var path := q.subject.path;
      var isFunc := path.call.Some?;
      var name: string;
      var funcArgs: seq<FunctionArgument> := [];
      if isFunc {
        var n, args, err := ParseFunctionCall(path.call);
        if err.Some? {
          return Failure(err.value);
        }
        name, funcArgs := n, args;
      } else {
        name := GetAttrName(path);
      }
      var opText := ToLower(q.op);
      var parsed := ParseValue(q.value);
      if parsed.Failure? {
        return Failure(parsed.error);
      }
      var lit := parsed.value;
      var p := Parameter(|parameters|, name, Expression, [], lit.strict, lit.argType, opText, lit.value);
      if isFunc {
        p := p.(inputType := FunctionCall, functionArguments := funcArgs);
      }
      parameters := parameters + [p];
      return Success(Leaf(p));
    }

    /**
     * `parseFunctionCall`: the function's name and one argument per value,
     * in order; the first argument that does not parse aborts the call.
     */
    method ParseFunctionCall(ctx: Option<FunctionCallNode>) returns (name: string, args: seq<FunctionArgument>, err: Option<Error>)
      ensures err.None? <==> ParsedFunctionCall(ctx).Success?
      ensures err.None? ==> ParsedFunctionCall(ctx).value == (name, args)
      ensures err.Some? ==> ParsedFunctionCall(ctx) == Failure(err.value) && name == "" && args == []
    {
      if ctx.None? {
        return "", [], Some(Bare(ErrorInvalidFunctionCall));
      }
      name := ctx.value.name;
      args := [];
      if ctx.value.argList.Some? {
        var vals := ctx.value.argList.value;
        ghost var ps := ParseValues(vals);
        for i := 0 to |vals|
          invariant CollectArguments(ps[..i]) == Success(args)
        {
          var parsed := ParseValue(vals[i]);
          if parsed.Failure? {
            assert FirstFailure(vals, i) by {
              CollectSucceeds(ps[..i]);
              forall j | 0 <= j < i ensures ParseValue(vals[j]).Success? {
                assert ps[..i][j] == ps[j];
              }
            }
            FirstArgumentErrorWins(vals, i);
            return "", [], Some(parsed.error);
          }
          assert ps[..i + 1][..i] == ps[..i];
          args := args + [ArgumentOf(parsed.value)];
        }
        assert ps[..|vals|] == ps;
      }
      err := None;
    }

    /** `getAttrName`: the path's whole text, dots included, not its last segment. */
    function GetAttrName(path: AttrPath): (name: string)
      ensures name == path.text
    {
      path.text
    }
  }

  /** A compile error on a comparison leaves the table as it was. */
  lemma CompareErrorAppendsNothing(subject: Subject, op: string, value: ValueNode, table: seq<Parameter>)
    requires Compile(CompareExp(subject, op, value), table).result.Failure?
    ensures Compile(CompareExp(subject, op, value), table).table == table
  {
  }

  /**
   * The leaf a comparison compiles to holds the table's new last entry:
   * the literal's value, type and strictness, the lowered operator, and the
   * call's name and arguments or the path's text.
   */
  lemma CompareLeaf(path: AttrPath, op: string, value: ValueNode, table: seq<Parameter>)
    requires ParseValue(value).Success? && (path.call.Some? ==> ParsedFunctionCall(path.call).Success?)
    ensures var s := Compile(CompareExp(PathSubject(path), op, value), table);
      var lit := ParseValue(value).value;
      && s.result.Success? && s.table == table + [s.result.value.param.value]
      && var p := s.result.value.param.value;
      && p.id == |table| && p.operator == ToLower(op)
      && p.compareValue == lit.value && p.expression == lit.argType && p.strictTypeCheck == lit.strict
      && Describes(p.expression, p.compareValue)
      && (path.call.None? ==> p.inputType == Expression && p.name == path.text && p.functionArguments == [])
      && (path.call.Some? ==> p.inputType == FunctionCall && (p.name, p.functionArguments) == ParsedFunctionCall(path.call).value)
  {
    if path.call.None? {
      ComparePathLeaf(path, op, value, table);
    } else {
      CompareCallLeaf(path, op, value, table);
    }
  }

  lemma ComparePathLeaf(path: AttrPath, op: string, value: ValueNode, table: seq<Parameter>)
    requires ParseValue(value).Success? && path.call.None?
    ensures var lit := ParseValue(value).value;
      var p := Parameter(|table|, path.text, Expression, [], lit.strict, lit.argType, ToLower(op), lit.value);
      Compile(CompareExp(PathSubject(path), op, value), table) == Step(Success(Leaf(p)), table + [p])
  {
    PathParameter(|table|, path, op, value);
  }

  lemma PathParameter(id: int, path: AttrPath, op: string, value: ValueNode)
    requires ParseValue(value).Success? && path.call.None?
    ensures var lit := ParseValue(value).value;
      CompareParameter(id, PathSubject(path), op, value) ==
        Success(Parameter(id, path.text, Expression, [], lit.strict, lit.argType, ToLower(op), lit.value))
  {
  }

  lemma CompareCallLeaf(path: AttrPath, op: string, value: ValueNode, table: seq<Parameter>)
    requires ParseValue(value).Success? && path.call.Some? && ParsedFunctionCall(path.call).Success?
    ensures var lit := ParseValue(value).value;
      var (name, args) := ParsedFunctionCall(path.call).value;
      var p := Parameter(|table|, name, FunctionCall, args, lit.strict, lit.argType, ToLower(op), lit.value);
      Compile(CompareExp(PathSubject(path), op, value), table) == Step(Success(Leaf(p)), table + [p])
  {
    CallParameter(|table|, path, op, value);
  }

  lemma CallParameter(id: int, path: AttrPath, op: string, value: ValueNode)
    requires ParseValue(value).Success? && path.call.Some? && ParsedFunctionCall(path.call).Success?
    ensures var lit := ParseValue(value).value;
      var (name, args) := ParsedFunctionCall(path.call).value;
      CompareParameter(id, PathSubject(path), op, value) ==
        Success(Parameter(id, name, FunctionCall, args, lit.strict, lit.argType, ToLower(op), lit.value))
  {
  }

  /**
   * Compiling then evaluating a comparison: with a value bound to the new
   * leaf's id, the result is the comparison of that value with the
   * literal, under the lowered operator and the literal's strictness; with
   * none, the leaf is false.
   */
  lemma CompiledComparisonEvaluates(path: AttrPath, op: string, value: ValueNode, table: seq<Parameter>,
                                    values: map<int, Value>, debugMode: bool)
    requires ParseValue(value).Success? && (path.call.Some? ==> ParsedFunctionCall(path.call).Success?)
    ensures var s := Compile(CompareExp(PathSubject(path), op, value), table);
      var lit := ParseValue(value).value;
      && s.result.Success?
      && Evaluate(Some(s.result.value), values, debugMode) ==
        if |table| in values then Compare.CompareOperator(values[|table|], ToLower(op), lit.value, lit.strict)
        else Success(false)
  {
    CompareLeaf(path, op, value, table);
  }

  /**
   * Compiling then evaluating a presence test: true exactly when a non-nil
   * value is bound to the new leaf's id.
   */
  lemma CompiledPresenceEvaluates(path: AttrPath, table: seq<Parameter>, values: map<int, Value>, debugMode: bool)
    ensures var s := Compile(PresentExp(path), table);
      && s.result.Success?
      && Evaluate(Some(s.result.value), values, debugMode) == Success(|table| in values && !values[|table|].Null?)
  {
    PresentLeaf(path, table);
  }

  /** A presence test compiles to a lenient `pr` leaf with no literal, named by the path's text. */
  lemma PresentLeaf(path: AttrPath, table: seq<Parameter>)
    ensures var s := Compile(PresentExp(path), table);
      && s.result.Success? && s.table == table + [s.result.value.param.value]
      && var p := s.result.value.param.value;
      && p.id == |table| && p.operator == "pr" && p.compareValue == Null && !p.strictTypeCheck
      && p.inputType == Expression && p.name == path.text
  {
  }

  /**
   * The left operand of `and`/`or` is compiled completely before the right
   * one, so in a table of positions every id on the left is below every id
   * on the right.
   */
  lemma LeftIdsBeforeRight(l: Query, op: string, r: Query, table: seq<Parameter>)
    requires IdsAreIndices(table) && WellLexed(LogicalExp(l, op, r))
    requires Compile(LogicalExp(l, op, r), table).result.Success?
    ensures var t := Compile(LogicalExp(l, op, r), table).result.value;
      IdsOrdered(LeafParams(t.left.value), LeafParams(t.right.value))
  {
    UnfoldLogical(l, op, r, table);
    var left := Compile(l, table);
    var right := Compile(r, left.table);
    CompileAppendsLeaves(l, table);
    CompileAppendsLeaves(r, left.table);
    CompileKeepsIdsIndices(LogicalExp(l, op, r), table);
    var ls, rs := LeafParams(left.result.value), LeafParams(right.result.value);
    assert right.table == table + ls + rs;
    OrderedByPosition(table, ls, rs);
  }

  /** Every id in the first sequence is below every id in the second. */
  predicate IdsOrdered(ls: seq<Parameter>, rs: seq<Parameter>) {
    forall i, j :: 0 <= i < |ls| && 0 <= j < |rs| ==> ls[i].id < rs[j].id
  }

  /** Entries later in a table of positions have larger ids. */
  lemma OrderedByPosition(table: seq<Parameter>, ls: seq<Parameter>, rs: seq<Parameter>)
    requires IdsAreIndices(table + ls + rs)
    ensures IdsOrdered(ls, rs)
  {
    forall i, j | 0 <= i < |ls| && 0 <= j < |rs| ensures ls[i].id < rs[j].id {
      assert (table + ls + rs)[|table| + i] == ls[i];
      assert (table + ls + rs)[|table| + |ls| + j] == rs[j];
    }
  }

  /** Two NOT tokens cancel: `not (not (q))` compiles exactly as `q`. */
  lemma DoubleNegationCancels(q: Query, table: seq<Parameter>)
    ensures Compile(ParenExp(true, ParenExp(true, q)), table) == Compile(q, table)
  {
    var s := Compile(q, table);
    if s.result.Success? {
      assert Negated(Negated(s.result.value)) == s.result.value;
    }
  }

  /** A NOT token inverts the compiled query's result under any bindings, and keeps its errors. */
  lemma NotTokenInverts(q: Query, table: seq<Parameter>, values: map<int, Value>, debugMode: bool)
    requires Compile(q, table).result.Success?
    ensures var t := Compile(q, table).result.value;
      var n := Compile(ParenExp(true, q), table).result.value;
      var a, b := Evaluate(Some(t), values, debugMode), Evaluate(Some(n), values, debugMode);
      (a.Success? <==> b.Success?) && (a.Success? ==> b.value == !a.value) && (a.Failure? ==> b == a)
  {
    NegatedFlipsResult(Compile(q, table).result.value, values, debugMode);
  }
}
