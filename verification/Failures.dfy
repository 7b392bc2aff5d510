/** What may be known about a failed provider call (internal/transport/failure.go). */
module Failures {
  datatype FailureClass =
    | Transient | RateLimited | PermissionDenied | DestinationMissing | PayloadRejected | Unsupported

  datatype SendCertainty = DefinitelyNotSent | SendAccepted | SendUnknown

  /** `retryAfter` is in nanoseconds, like Go's time.Duration. */
  datatype Failure = Failure(cls: FailureClass, retryable: bool, retryAfter: int, certainty: SendCertainty)

  /** What an adapter hands back: either a classified failure or an arbitrary error. */
  datatype Error = Classified(failure: Failure) | Unclassified

  predicate ClassRetryable(cls: FailureClass) {
    cls == Transient || cls == RateLimited
  }

  function NewFailureWithCertainty(cls: FailureClass, retryAfter: int, certainty: SendCertainty): Error {
    Classified(Failure(cls, ClassRetryable(cls), if retryAfter < 0 then 0 else retryAfter, certainty))
  }

  function NewFailure(cls: FailureClass, retryAfter: int): Error {
    NewFailureWithCertainty(cls, retryAfter, DefinitelyNotSent)
  }

  /** An unclassified error keeps the legacy contract: transient, retryable, never accepted. */
  function Classify(err: Error): Failure {
    match err
    case Classified(failure) => failure
    case Unclassified => Failure(Transient, true, 0, DefinitelyNotSent)
  }
}
