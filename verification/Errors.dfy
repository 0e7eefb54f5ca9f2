/** Go error values as the retry engine sees them: a chain that `errors.As` and `errors.Is` walk. */
module Errors {
  import opened Outcomes

  datatype Cause = Canceled | DeadlineExceeded

  datatype Error =
    | Plain(msg: string)
    | FromContext(cause: Cause)
    | Wrapped(msg: string, inner: Error)
    | Retriable(inner: Error)
    | Exhausted(attempts: int, last: Option<Error>)  // `%w` of a nil error wraps nothing

  function Unwrap(e: Error): Option<Error> {
    match e
    case Wrapped(_, inner) => Some(inner)
    case Retriable(inner) => Some(inner)
    case Exhausted(_, last) => last
    case _ => None
  }

  /** `errors.As(err, &re)` with `re *retriableError`. */
  predicate IsRetriable(e: Error) {
    e.Retriable? || match Unwrap(e) case Some(inner) => IsRetriable(inner) case None => false
  }

  /** `errors.Is` against either context error. */
  predicate IsContextError(e: Error) {
    e.FromContext? || match Unwrap(e) case Some(inner) => IsContextError(inner) case None => false
  }

  /** `x` is `e` or an error that `e` wraps, at any depth. */
  predicate Holds(e: Error, x: Error) {
    e == x ||
    match e
    case Plain(_) => false
    case FromContext(_) => false
    case Wrapped(_, inner) => Holds(inner, x)
    case Retriable(inner) => Holds(inner, x)
    case Exhausted(_, last) => last.Some? && Holds(last.value, x)
  }

  lemma HoldsWhatItWraps(e: Error, x: Error)
    requires Unwrap(e).Some? && Holds(Unwrap(e).value, x)
    ensures Holds(e, x)
  {
  }

  /** Both searches find their errors under any number of wrappings, and nothing else. */
  lemma {:induction false} SearchesFindWhatIsHeld(e: Error)
    ensures IsRetriable(e) <==> exists inner :: Holds(e, Retriable(inner))
    ensures IsContextError(e) <==> Holds(e, FromContext(Canceled)) || Holds(e, FromContext(DeadlineExceeded))
  {
    match Unwrap(e)
    case None => assert e.FromContext? ==> e.cause == Canceled || e.cause == DeadlineExceeded;
    case Some(inner) =>
      SearchesFindWhatIsHeld(inner);
      if exists x :: Holds(inner, Retriable(x)) {
        var x :| Holds(inner, Retriable(x));
        HoldsWhatItWraps(e, Retriable(x));
      }
      if e.Retriable? {
        assert Holds(e, Retriable(inner));
      }
  }
}
