/** Errors the services raise, and how each service's catch block classifies what it caught. */
module Errors {

  datatype Option<+T> = None | Some(value: T) {
    /** `x ?? d` for a field that is either present or absent. */
    function GetOr(default: T): T {
      match this
      case Some(v) => v
      case None => default
    }
  }

  /** The HTTP statuses the services raise. */
  datatype Status = BadRequest | Forbidden | NotFound | InternalServerError {
    function Code(): int {
      match this
      case BadRequest => 400
      case Forbidden => 403
      case NotFound => 404
      case InternalServerError => 500
    }
  }

  /** An HttpException: its status and the machine-readable `error` string of its body. */
  datatype HttpError = HttpError(status: Status, error: string)

  /** The outcome of a service call: the response data, or the exception it throws. */
  datatype Result<+T> = Ok(value: T) | Err(failure: HttpError)

  /** What a catch block can receive: an HttpException, an error object with a `code`
      property (a datastore error), or any other value. */
  datatype Thrown = Http(exception: HttpError) | Coded(code: string) | Uncoded

  const PermissionDenied := HttpError(Forbidden, "PERMISSION_DENIED")
  const InternalError := HttpError(InternalServerError, "INTERNAL_SERVER_ERROR")
  const AllStatuses: set<Status> := {BadRequest, Forbidden, NotFound, InternalServerError}

  /** `commonThrow` of the exercise and users services: an HttpException is rethrown as it is,
      a datastore error whose code is PERMISSION_DENIED becomes 403, anything else 500. */
  function CommonThrow(t: Thrown): (e: HttpError)
    ensures t.Http? ==> e == t.exception
    ensures !t.Http? ==> (e == PermissionDenied <==> t == Coded("PERMISSION_DENIED"))
    ensures !t.Http? && t != Coded("PERMISSION_DENIED") ==> e == InternalError
  {
    match t
    case Http(x) => x
    case Coded(c) => if c == "PERMISSION_DENIED" then PermissionDenied else InternalError
    case Uncoded => InternalError
  }

  /** The auth service's catch blocks: only HttpExceptions whose status is in `rethrown` pass
      through; every other value is tested for `code === 'PERMISSION_DENIED'` (an HttpException
      has no `code`, so one that is not rethrown becomes 500). */
  function RethrowOrMap(t: Thrown, rethrown: set<Status>): (e: HttpError)
    ensures t.Http? && t.exception.status in rethrown ==> e == t.exception
    ensures t.Http? && t.exception.status !in rethrown ==> e == InternalError
    ensures !t.Http? ==> e == CommonThrow(t)
  {
    if t.Http? && t.exception.status in rethrown then t.exception
    else if t.Coded? && t.code == "PERMISSION_DENIED" then PermissionDenied
    else InternalError
  }

  /** Rethrowing every status is `commonThrow`. */
  lemma RethrowAllIsCommon(t: Thrown)
    ensures RethrowOrMap(t, AllStatuses) == CommonThrow(t)
  {
    if t.Http? {
      match t.exception.status
      case BadRequest =>
      case Forbidden =>
      case NotFound =>
      case InternalServerError =>
    }
  }

  /** The controllers' catch blocks: an HttpException passes through, anything else is 500. */
  function ControllerThrow(t: Thrown): (e: HttpError)
    ensures t.Http? ==> e == t.exception
    ensures !t.Http? ==> e.status == InternalServerError
  {
    if t.Http? then t.exception else InternalError
  }

  /** Classifying twice changes nothing: what a service throws, its controller rethrows. */
  lemma ClassifiersCompose(t: Thrown, rethrown: set<Status>)
    ensures ControllerThrow(Http(CommonThrow(t))) == CommonThrow(t)
    ensures ControllerThrow(Http(RethrowOrMap(t, rethrown))) == RethrowOrMap(t, rethrown)
    ensures CommonThrow(Http(CommonThrow(t))) == CommonThrow(t)
  {
  }
}
