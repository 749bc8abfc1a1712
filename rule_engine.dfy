/**
 * The public surface: compiling a parsed query into a rule, and
 * evaluating a rule against the values the caller binds to its
 * parameters.
 */
module RuleEngine {
  import opened Wrappers
  import opened Numbers
  import opened Values
  import opened Errors
  import opened Models
  import opened Syntax
  import ExprTrees
  import Compare
  import Literals
  import Text
  import opened Visit

  /** The error for a syntax error reported at `line:column` with the parser's message. */
  function ReportError(line: int, column: int, msg: string): (e: Error)
    ensures Is(e, ErrorSyntaxError)
    ensures Message(e) == "syntax error at line " + RenderInt(line) + ":" + RenderInt(column) + ": " + msg
  {
    var l, c := RenderInt(line), RenderInt(column);
    assert "syntax error at line " + (l + ":" + c + ": " + msg) == "syntax error at line " + l + ":" + c + ": " + msg;
    NewSyntaxError(l + ":" + c + ": " + msg)
  }

  /** The error listener handed to the parser: it keeps the flag and the most recent error. */
  class ErrorListener {
    var hasErrors: bool
    var errMsg: Option<Error>

    constructor ()
      ensures !hasErrors && errMsg == None
    {
      hasErrors := false;
      errMsg := None;
    }

    /** `SyntaxError`: the parser's callback for one syntax error. */
    method SyntaxError(line: int, column: int, msg: string)
      modifies this
      ensures hasErrors && errMsg == Some(ReportError(line, column, msg))
    {
      hasErrors := true;
      errMsg := Some(NewSyntaxError(RenderInt(line) + ":" + RenderInt(column) + ": " + msg));
    }
  }

  /**
   * The values bound by the caller, keyed by parameter id; a later binding
   * for the same id replaces an earlier one.
   */
  function BindingMap(values: seq<Evaluation>): map<int, Value> {
    if values == [] then map[]
    else
      var last := values[|values| - 1];
      BindingMap(values[..|values| - 1])[last.param.id := last.result]
  }

  /** An id is bound exactly when some binding names it. */
  lemma {:induction false} BindingMapDomain(values: seq<Evaluation>, id: int)
    ensures id in BindingMap(values) <==> exists i :: 0 <= i < |values| && values[i].param.id == id
    decreases |values|
  {
    if values != [] {
      var init := values[..|values| - 1];
      BindingMapDomain(init, id);
      if exists i :: 0 <= i < |init| && init[i].param.id == id {
        var i :| 0 <= i < |init| && init[i].param.id == id;
        assert values[i].param.id == id;
      }
      if exists i :: 0 <= i < |values| && values[i].param.id == id {
        var i :| 0 <= i < |values| && values[i].param.id == id;
        if i < |init| {
          assert init[i].param.id == id;
        }
      }
    }
  }

  /** The value bound to an id is the result of the last binding that names it. */
  lemma {:induction false} LastBindingWins(values: seq<Evaluation>, k: int)
    requires 0 <= k < |values|
    requires forall j :: k < j < |values| ==> values[j].param.id != values[k].param.id
    ensures values[k].param.id in BindingMap(values)
    ensures BindingMap(values)[values[k].param.id] == values[k].result
    decreases |values|
  {
    if k < |values| - 1 {
      var init := values[..|values| - 1];
      assert init[k] == values[k];
      LastBindingWins(init, k);
    }
  }

  /** Only each binding's id and result matter: the other fields of its parameter are ignored. */
  lemma {:induction false} BindingsMatchOnlyIds(vs: seq<Evaluation>, ws: seq<Evaluation>)
    requires |vs| == |ws|
    requires forall i :: 0 <= i < |vs| ==> vs[i].param.id == ws[i].param.id && vs[i].result == ws[i].result
    ensures BindingMap(vs) == BindingMap(ws)
    decreases |vs|
  {
    if vs != [] {
      BindingsMatchOnlyIds(vs[..|vs| - 1], ws[..|ws| - 1]);
    }
  }

  /** A compiled rule: the tree, the parameter table in allocation order, and the debug flag. */
  datatype Rule = Rule(exprTree: ExprTree, params: seq<Parameter>, debugMode: bool) {

    /** `Rule.Evaluate`: bind the values by id, then evaluate the tree. */
    method Evaluate(values: seq<Evaluation>) returns (r: Result<bool, Error>)
      ensures r == ExprTrees.Evaluate(Some(exprTree), BindingMap(values), debugMode)
    {
      var valuesMap: map<int, Value> := map[];
      for i := 0 to |values|
        invariant valuesMap == BindingMap(values[..i])
      {
        assert values[..i + 1][..i] == values[..i];
        valuesMap := valuesMap[values[i].param.id := values[i].result];
      }
      assert values[..|values|] == values;
      r := ExprTrees.Evaluate(Some(exprTree), valuesMap, debugMode);
    }
  }

  /** The zero `Rule`: a node that is neither logical nor holds a parameter. */
  const EmptyRule: Rule := Rule(ExprTree(false, "", None, None, None), [], false)

  /** Evaluating the zero `Rule` dereferences its missing parameter, whatever the bindings. */
  lemma EmptyRuleEvaluationPanics(values: seq<Evaluation>)
    ensures ExprTrees.Evaluate(Some(EmptyRule.exprTree), BindingMap(values), EmptyRule.debugMode) == Failure(RuntimePanic)
  {
  }

  /** Debug mode is on only for a present configuration that asks for it. */
  function DebugModeOf(config: Option<Config>): (b: bool)
    ensures b <==> config.Some? && config.value.debugMode
  {
    config.Some? && config.value.debugMode
  }

  /** One syntax error the parser reported through the listener. */
  datatype SyntaxReport = SyntaxReport(line: int, column: int, msg: string)

  /**
   * What `ParseQuery` returns for a parse tree and the syntax errors the
   * parser reported while building it. A run-time panic while compiling is
   * recovered without setting the returned error.
   */
  function ParsedQuery(root: Root, reports: seq<SyntaxReport>, config: Option<Config>): (Rule, Option<Error>) {
    if reports != [] then
      var last := reports[|reports| - 1];
      (EmptyRule, Some(ReportError(last.line, last.column, last.msg)))
    else
      var s := Compile(root.query, []);
      match s.result
      case Failure(e) => (EmptyRule, if e.RuntimePanic? then None else Some(e))
      case Success(t) => (Rule(t, s.table, DebugModeOf(config)), None)
  }

  /**
   * `ParseQuery` after parsing: the listener sees each reported syntax
   * error; if it saw any, its last error is returned and the visitor never
   * runs; otherwise the root is compiled by a fresh visitor.
   */
  method ParseQuery(root: Root, reports: seq<SyntaxReport>, config: Option<Config>) returns (rule: Rule, err: Option<Error>)
    ensures (rule, err) == ParsedQuery(root, reports, config)
  {
    var debugMode := false;
    if config.Some? {
      if config.value.debugMode {
        debugMode := true;
      }
    }
    var errListener := new ErrorListener();
    for i := 0 to |reports|
      invariant errListener.hasErrors <==> i > 0
      invariant i > 0 ==> errListener.errMsg == Some(ReportError(reports[i - 1].line, reports[i - 1].column, reports[i - 1].msg))
    {
      errListener.SyntaxError(reports[i].line, reports[i].column, reports[i].msg);
    }
    if errListener.hasErrors {
      return EmptyRule, errListener.errMsg;
    }
    var vis := new QueryVisitor();
    var exprAny := vis.VisitRoot(root);
    if exprAny.Failure? {
      if exprAny.error.RuntimePanic? {
        return EmptyRule, None;
      }
      return EmptyRule, Some(exprAny.error);
    }
    return Rule(exprAny.value, vis.parameters, debugMode), None;
  }

  /** A reported syntax error is returned, as the last one reported, and nothing is compiled. */
  lemma SyntaxErrorStopsCompilation(root: Root, reports: seq<SyntaxReport>, config: Option<Config>)
    requires reports != []
    ensures var (rule, err) := ParsedQuery(root, reports, config);
      var last := reports[|reports| - 1];
      && rule == EmptyRule && err.Some? && Is(err.value, ErrorSyntaxError)
      && err == Some(ReportError(last.line, last.column, last.msg))
  {
  }

  /**
   * A query that compiles yields a rule whose parameter ids are 0..n-1, one
   * per comparison or presence test, which are the tree's leaves in order,
   * and whose debug flag is the configuration's.
   */
  lemma CompiledRule(root: Root, config: Option<Config>)
    requires Compile(root.query, []).result.Success?
    ensures var (rule, err) := ParsedQuery(root, [], config);
      && err.None?
      && rule.exprTree == Compile(root.query, []).result.value
      && rule.params == Compile(root.query, []).table
      && IdsAreIndices(rule.params)
      && |rule.params| == LeafCount(root.query)
      && rule.debugMode == (config.Some? && config.value.debugMode)
      && (WellLexed(root.query) ==> WellShaped(rule.exprTree) && rule.params == LeafParams(rule.exprTree))
  {
    assert IdsAreIndices([]);
    CompileAppendsLeaves(root.query, []);
    CompileKeepsIdsIndices(root.query, []);
  }

  /**
   * A rule made of one comparison, evaluated against the caller's
   * bindings: the comparison of the value bound to id 0 with the literal,
   * or false when nothing is bound to it.
   */
  lemma SingleComparisonRule(path: AttrPath, op: string, value: ValueNode, config: Option<Config>, values: seq<Evaluation>)
    requires Literals.ParseValue(value).Success?
    requires path.call.Some? ==> Literals.ParsedFunctionCall(path.call).Success?
    ensures var (rule, err) := ParsedQuery(Root(CompareExp(PathSubject(path), op, value)), [], config);
      var lit := Literals.ParseValue(value).value;
      var bound := BindingMap(values);
      && err.None?
      && ExprTrees.Evaluate(Some(rule.exprTree), bound, rule.debugMode) ==
        if 0 in bound then Compare.CompareOperator(bound[0], Text.ToLower(op), lit.value, lit.strict)
        else Success(false)
  {
    CompiledComparisonEvaluates(path, op, value, [], BindingMap(values), DebugModeOf(config));
  }

  /** A compile error other than a panic is returned with the zero rule. */
  lemma CompileErrorGivesEmptyRule(root: Root, config: Option<Config>)
    requires Compile(root.query, []).result.Failure?
    ensures var (rule, err) := ParsedQuery(root, [], config);
      rule == EmptyRule &&
      err == if Compile(root.query, []).result.error.RuntimePanic? then None else Some(Compile(root.query, []).result.error)
  {
  }

  /** The leaf `usr_id eq 17` compiles to: a lenient int64 comparison. */
  const UsrIdLeaf := Parameter(0, "usr_id", Expression, [], false, ArgTypeInteger64, "eq", Int64(17))

  /** `usr_id eq 17` compiles to one lenient int64 leaf with id 0. */
  lemma UsrIdEq17Compiles()
    ensures Compile(CompareExp(PathSubject(AttrPath("usr_id", None)), "eq", TypedVal(TypedInteger(None, "17"))), [])
      == Step(Success(Leaf(UsrIdLeaf)), [UsrIdLeaf])
  {
    assert RenderInt(17) == "17";
    Literals.UnannotatedIntegerLiteral(17);
    assert Text.ToLower("eq") == "eq";
  }

  /** Binding 17 to the `usr_id eq 17` leaf satisfies the rule, binding 18 does not. */
  lemma UsrIdEq17Evaluates()
    ensures ExprTrees.Evaluate(Some(Leaf(UsrIdLeaf)), BindingMap([Evaluation(UsrIdLeaf, Int(17))]), false) == Success(true)
    ensures ExprTrees.Evaluate(Some(Leaf(UsrIdLeaf)), BindingMap([Evaluation(UsrIdLeaf, Int(18))]), false) == Success(false)
  {
    LastBindingWins([Evaluation(UsrIdLeaf, Int(17))], 0);
    LastBindingWins([Evaluation(UsrIdLeaf, Int(18))], 0);
    Compare.LenientIntegerComparison(Int(17), "eq", Int64(17));
    Compare.LenientIntegerComparison(Int(18), "eq", Int64(17));
  }

  /**
   * A leaf whose operator is not one of the known ones, bound to a string,
   * reports the operator as invalid on strings.
   */
  lemma UnknownOperatorOnString()
    ensures var p := Parameter(0, "dummy", Expression, [], false, ArgTypeString, "xxx", Null);
      var rule := Rule(ExprTree(false, "", None, None, Some(p)), [p], false);
      var r := ExprTrees.Evaluate(Some(rule.exprTree), BindingMap([Evaluation(p, Str("hello"))]), rule.debugMode);
      r == Failure(NewErrorInvalidOperator("xxx", "string")) && Is(r.error, ErrorInvalidOperator)
  {
    var p := Parameter(0, "dummy", Expression, [], false, ArgTypeString, "xxx", Null);
    LastBindingWins([Evaluation(p, Str("hello"))], 0);
    Compare.UnknownOperatorOnStrings("hello", "xxx", Null, false);
  }
}
