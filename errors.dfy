/**
 * The error taxonomy: ten sentinel errors, three constructors that wrap a
 * sentinel with context, and Go run-time panics, which the engine does not
 * turn into errors but which some inputs reach.
 */
module Errors {
  import opened Text

  /** The ten sentinel error values, compared by identity (`errors.Is`). */
  datatype Sentinel =
    | ErrorUnknownDecimalOperator
    | ErrorTypeMismatch
    | ErrorUnknownStringOperator
    | ErrorNoExpression
    | ErrorInvalidValue
    | ErrorUnknownType
    | ErrorInvalidFunctionCall
    | ErrorInvalidExpression
    | ErrorInvalidOperator
    | ErrorSyntaxError

  /** The text of each sentinel; `ErrorUnknownType` reuses "invalid value". */
  function SentinelMessage(s: Sentinel): string {
    match s
    case ErrorUnknownDecimalOperator => "unknown decimal operator"
    case ErrorTypeMismatch => "compare type mismatch"
    case ErrorUnknownStringOperator => "unknown string operator"
    case ErrorNoExpression => "there is no expression"
    case ErrorInvalidValue => "invalid value"
    case ErrorUnknownType => "invalid value"
    case ErrorInvalidFunctionCall => "invalid function call"
    case ErrorInvalidExpression => "invalid expression"
    case ErrorInvalidOperator => "invalid operator"
    case ErrorSyntaxError => "syntax error"
  }

  datatype Error =
    | Bare(sentinel: Sentinel)
      /** `NewSyntaxError(position)`. */
    | SyntaxErrorAt(position: string)
      /** `NewErrorInvalidOperator(op, typeName)`. */
    | InvalidOperatorOn(op: string, typeName: string)
      /** `NewErrorTypeMismatch(first, second)`. */
    | TypeMismatchOf(first: string, second: string)
      /** A Go run-time panic: a method call on a nil `reflect.Type`, a failed type assertion or a nil dereference. */
    | RuntimePanic

  /** The sentinel an error wraps; a panic wraps none. */
  function Wrapped(e: Error): (s: Sentinel)
    requires !e.RuntimePanic?
  {
    match e
    case Bare(s) => s
    case SyntaxErrorAt(_) => ErrorSyntaxError
    case InvalidOperatorOn(_, _) => ErrorInvalidOperator
    case TypeMismatchOf(_, _) => ErrorTypeMismatch
  }

  /** `errors.Is(e, s)`: identity with the sentinel anywhere in the wrap chain. */
  predicate Is(e: Error, s: Sentinel) {
    !e.RuntimePanic? && Wrapped(e) == s
  }

  /** `e.Error()`. */
  function Message(e: Error): string
    requires !e.RuntimePanic?
  {
    match e
    case Bare(s) => SentinelMessage(s)
    case SyntaxErrorAt(v) => SentinelMessage(ErrorSyntaxError) + " at line " + v
    case InvalidOperatorOn(op, t) => SentinelMessage(ErrorInvalidOperator) + ": " + op + " on " + t
    case TypeMismatchOf(a, b) => SentinelMessage(ErrorTypeMismatch) + ": " + a + " and " + b
  }

  function NewSyntaxError(v: string): (e: Error)
    ensures Is(e, ErrorSyntaxError) && Message(e) == "syntax error at line " + v
  {
    SyntaxErrorAt(v)
  }

  function NewErrorInvalidOperator(op: string, t: string): (e: Error)
    ensures Is(e, ErrorInvalidOperator) && Message(e) == "invalid operator: " + op + " on " + t
  {
    InvalidOperatorOn(op, t)
  }

  function NewErrorTypeMismatch(a: string, b: string): (e: Error)
    ensures Is(e, ErrorTypeMismatch) && Message(e) == "compare type mismatch: " + a + " and " + b
  {
    TypeMismatchOf(a, b)
  }

  /** Every error is its one sentinel and its message starts with that sentinel's text. */
  lemma ErrorWrapsOneSentinel(e: Error, s: Sentinel)
    requires !e.RuntimePanic?
    ensures Is(e, s) <==> s == Wrapped(e)
    ensures HasPrefix(Message(e), SentinelMessage(Wrapped(e)))
  {
    var m := SentinelMessage(Wrapped(e));
    assert Message(e)[..|m|] == m;
  }

  /**
   * Sentinel texts are pairwise distinct except that `ErrorUnknownType`
   * and `ErrorInvalidValue` share "invalid value": only `errors.Is` tells
   * those two apart.
   */
  lemma SentinelMessagesDistinct(a: Sentinel, b: Sentinel)
    ensures SentinelMessage(a) == SentinelMessage(b) <==>
      a == b || {a, b} == {ErrorInvalidValue, ErrorUnknownType}
  {
    if SentinelMessage(a) == SentinelMessage(b) && a != b {
      assert SentinelMessage(a)[..3] == SentinelMessage(b)[..3];
      assert SentinelMessage(a)[8..] == SentinelMessage(b)[8..];
    }
  }

  /** A panic is none of the sentinels. */
  lemma PanicIsNoSentinel(s: Sentinel)
    ensures !Is(RuntimePanic, s)
  {
  }
}
