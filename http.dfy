/** The outcomes the two services hand back to NestJS: a value, or one of the
    framework's HTTP exceptions together with the status code it answers with. */
module Http {

  /** An optional value: a field a request may leave out, a lookup that finds nothing. */
  datatype Option<+T> = None | Some(value: T) {
    /** The value, or `default` when there is none (a TypeScript default parameter). */
    function GetOr(default: T): T {
      match this
      case Some(v) => v
      case None => default
    }
  }

  /** The exceptions the services throw. */
  datatype HttpError =
    | Unauthorized(message: string)           // UnauthorizedException
    | Forbidden(message: string)              // ForbiddenException
    | NotFound(message: string)               // NotFoundException
    | Conflict(message: string)               // ConflictException
    | Exception(message: string, code: nat)   // new HttpException(message, code)
  {
    /** The HTTP status NestJS answers with when this exception escapes a handler. */
    function Status(): nat {
      match this
      case Unauthorized(_) => 401
      case Forbidden(_) => 403
      case NotFound(_) => 404
      case Conflict(_) => 409
      case Exception(_, code) => code
    }
  }

  /** A service call either returns a value or throws one exception. */
  datatype Result<+T> = Ok(value: T) | Err(error: HttpError)
}
