/**
 * Evaluation of a compiled expression tree against the values bound to
 * its parameters' ids.
 */
module ExprTrees {
  import opened Wrappers
  import opened Values
  import opened Errors
  import opened Models
  import Compare

  /** The node's own result, inverted when its `not` flag is set. */
  function Flip(not: bool, b: bool): bool {
    if not then !b else b
  }

  /**
   * `exprTree.evaluate`: a nil tree is `ErrorNoExpression`; `and`/`or`
   * evaluate both children, left first, and stop at the first error; a
   * leaf without a binding for its id yields its `not` flag; a leaf with a
   * binding compares the bound value with its literal. Every node's result
   * is flipped by its `not` flag. A node that is neither logical nor holds
   * a parameter dereferences a nil pointer. The debug flag only enables
   * printing.
   */
  function Evaluate(e: Option<ExprTree>, values: map<int, Value>, debugMode: bool): (r: Result<bool, Error>)
    ensures e.None? ==> r == Failure(Bare(ErrorNoExpression))
    ensures e.Some? && !IsLogical(e.value.op) && e.value.param.Some? && e.value.param.value.id !in values ==>
      r == Success(e.value.not)
    decreases e
  {
    match e
    case None => Failure(Bare(ErrorNoExpression))
    case Some(t) =>
      if t.op == "and" then
        var l :- Evaluate(t.left, values, debugMode);
        var r :- Evaluate(t.right, values, debugMode);
        Success(Flip(t.not, l && r))
      else if t.op == "or" then
        var l :- Evaluate(t.left, values, debugMode);
        var r :- Evaluate(t.right, values, debugMode);
        Success(Flip(t.not, l || r))
      else
        match t.param
        case None => Failure(RuntimePanic)
        case Some(p) =>
          if p.id !in values then Success(t.not)
          else
            var out :- Compare.CompareOperator(values[p.id], p.operator, p.compareValue, p.strictTypeCheck);
            Success(Flip(t.not, out))
  }

  /** The same node with its `not` flag inverted. */
  function Negated(t: ExprTree): ExprTree {
    t.(not := !t.not)
  }

  /** Inverting a node's flag inverts its result and leaves its errors as they are. */
  lemma NegatedFlipsResult(t: ExprTree, values: map<int, Value>, debugMode: bool)
    ensures var r, n := Evaluate(Some(t), values, debugMode), Evaluate(Some(Negated(t)), values, debugMode);
      && (r.Success? <==> n.Success?)
      && (r.Success? ==> n.value == !r.value)
      && (r.Failure? ==> n == r)
  {
  }

  /**
   * `and` and `or` evaluate both children, so the left child's error wins,
   * then the right child's, even when the left result alone decides the
   * outcome; with both results, the node combines them and applies `not`.
   */
  lemma LogicalNodeEvaluatesBoth(not: bool, op: string, a: ExprTree, b: ExprTree, values: map<int, Value>, debugMode: bool)
    requires IsLogical(op)
    ensures var l, r := Evaluate(Some(a), values, debugMode), Evaluate(Some(b), values, debugMode);
      Evaluate(Some(ExprTree(not, op, Some(a), Some(b), None)), values, debugMode) ==
        if l.Failure? then l
        else if r.Failure? then r
        else Success(Flip(not, if op == "and" then l.value && r.value else l.value || r.value))
  {
  }

  /** A false left operand of `and` does not hide an error in the right one. */
  lemma NoShortCircuit(a: ExprTree, b: ExprTree, values: map<int, Value>, debugMode: bool, err: Error)
    requires Evaluate(Some(a), values, debugMode) == Success(false)
    requires Evaluate(Some(b), values, debugMode) == Failure(err)
    ensures Evaluate(Some(ExprTree(false, "and", Some(a), Some(b), None)), values, debugMode) == Failure(err)
  {
  }

  /** When both children of `and` or `or` fail, the left child's error is the one reported. */
  lemma LeftErrorWins(not: bool, op: string, a: ExprTree, b: ExprTree, values: map<int, Value>, debugMode: bool, ea: Error, eb: Error)
    requires IsLogical(op)
    requires Evaluate(Some(a), values, debugMode) == Failure(ea)
    requires Evaluate(Some(b), values, debugMode) == Failure(eb)
    ensures Evaluate(Some(ExprTree(not, op, Some(a), Some(b), None)), values, debugMode) == Failure(ea)
  {
  }

  /**
   * Every error evaluation reports is a comparison error or the missing
   * expression of a nil child.
   */
  lemma {:induction false} EvaluationErrors(e: Option<ExprTree>, values: map<int, Value>, debugMode: bool)
    ensures var r := Evaluate(e, values, debugMode);
      r.Failure? ==> r.error == Bare(ErrorNoExpression) || Compare.ComparisonError(r.error)
    decreases e
  {
    if e.Some? && IsLogical(e.value.op) {
      EvaluationErrors(e.value.left, values, debugMode);
      EvaluationErrors(e.value.right, values, debugMode);
    }
  }

  /** De Morgan: a negated `and` is the `or` of the negated children, and vice versa. */
  lemma DeMorgan(a: ExprTree, b: ExprTree, values: map<int, Value>, debugMode: bool)
    ensures Evaluate(Some(ExprTree(true, "and", Some(a), Some(b), None)), values, debugMode) ==
      Evaluate(Some(ExprTree(false, "or", Some(Negated(a)), Some(Negated(b)), None)), values, debugMode)
    ensures Evaluate(Some(ExprTree(true, "or", Some(a), Some(b), None)), values, debugMode) ==
      Evaluate(Some(ExprTree(false, "and", Some(Negated(a)), Some(Negated(b)), None)), values, debugMode)
  {
    NegatedFlipsResult(a, values, debugMode);
    NegatedFlipsResult(b, values, debugMode);
  }

  /**
   * A leaf with a binding: the comparison of the bound value with the
   * literal, exclusive-or `not`; a comparison error is returned unchanged.
   */
  lemma BoundLeaf(not: bool, p: Parameter, values: map<int, Value>, debugMode: bool)
    requires p.id in values
    ensures var c := Compare.CompareOperator(values[p.id], p.operator, p.compareValue, p.strictTypeCheck);
      Evaluate(Some(ExprTree(not, "", None, None, Some(p))), values, debugMode) ==
        if c.Failure? then Failure(c.error) else Success(c.value != not)
  {
  }

  /** A leaf without a binding yields its `not` flag, whatever its operator, `pr` included. */
  lemma UnboundLeaf(not: bool, p: Parameter, values: map<int, Value>, debugMode: bool)
    requires p.id !in values
    ensures Evaluate(Some(ExprTree(not, "", None, None, Some(p))), values, debugMode) == Success(not)
  {
  }

  /** The ids of a tree's leaves. */
  function LeafIds(t: ExprTree): set<int> {
    if IsLogical(t.op) && t.left.Some? && t.right.Some? then LeafIds(t.left.value) + LeafIds(t.right.value)
    else if t.param.Some? then {t.param.value.id}
    else {}
  }

  /** Two binding maps agree on a set of ids: each id is bound in both, to the same value, or in neither. */
  predicate AgreeOn(ids: set<int>, m1: map<int, Value>, m2: map<int, Value>) {
    forall id :: id in ids ==> (id in m1 <==> id in m2) && (id in m1 ==> m1[id] == m2[id])
  }

  /** Evaluation of a well-shaped tree looks only at the bindings of its leaves' ids; the debug flag does not matter. */
  lemma {:induction false} EvaluateDependsOnLeafIds(t: ExprTree, m1: map<int, Value>, m2: map<int, Value>, d1: bool, d2: bool)
    requires WellShaped(t) && AgreeOn(LeafIds(t), m1, m2)
    ensures Evaluate(Some(t), m1, d1) == Evaluate(Some(t), m2, d2)
    decreases t
  {
    if IsLogical(t.op) {
      var a, b := t.left.value, t.right.value;
      AgreeOnPart(LeafIds(a), LeafIds(b), m1, m2);
      EvaluateDependsOnLeafIds(a, m1, m2, d1, d2);
      EvaluateDependsOnLeafIds(b, m1, m2, d1, d2);
      LogicalNodeAgrees(t, m1, m2, d1, d2);
    } else {
      LeafDependsOnItsId(t, m1, m2, d1, d2);
    }
  }

  lemma AgreeOnPart(a: set<int>, b: set<int>, m1: map<int, Value>, m2: map<int, Value>)
    requires AgreeOn(a + b, m1, m2)
    ensures AgreeOn(a, m1, m2) && AgreeOn(b, m1, m2)
  {
  }

  lemma LogicalNodeAgrees(t: ExprTree, m1: map<int, Value>, m2: map<int, Value>, d1: bool, d2: bool)
    requires IsLogical(t.op)
    requires Evaluate(t.left, m1, d1) == Evaluate(t.left, m2, d2)
    requires Evaluate(t.right, m1, d1) == Evaluate(t.right, m2, d2)
    ensures Evaluate(Some(t), m1, d1) == Evaluate(Some(t), m2, d2)
  {
  }

  lemma LeafDependsOnItsId(t: ExprTree, m1: map<int, Value>, m2: map<int, Value>, d1: bool, d2: bool)
    requires !IsLogical(t.op) && t.param.Some? && AgreeOn({t.param.value.id}, m1, m2)
    ensures Evaluate(Some(t), m1, d1) == Evaluate(Some(t), m2, d2)
  {
    var id := t.param.value.id;
    assert id in {id};
  }
}
