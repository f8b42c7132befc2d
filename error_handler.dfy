/**
 * The last-resort handlers (Backend/middleware/errorHandler.js): errorHandler
 * turns an error nobody caught into a reply, first by its database error
 * code, then by its token-error name, then by its own HTTP status; notFound
 * answers every unmatched route.
 */
module ErrorHandler {
  import opened Basics
  import opened Sorting

  /** The fields of an error object the handler reads: `code`, `name`, `status` and `message`. */
  datatype AppError = AppError(code: Option<string>, name: string, status: Option<nat>, message: string)

  /** The reply for a database error code, by the SQLSTATE switch. */
  function DatabaseReply(code: string): (r: Reply<()>)
    ensures !r.success && r.data.None?
    ensures r.code == 409 <==> code == "23505"
    ensures r.code == 400 <==> code == "23503" || code == "23502" || code == "22P02"
    ensures r.code == 500 <==> code != "23505" && code != "23503" && code != "23502" && code != "22P02"
    ensures r.code == 500 ==> r.message == "Database error occurred"
    ensures code == "23505" ==> r.message == "Resource already exists"
    ensures code == "23503" ==> r.message == "Referenced resource not found"
    ensures code == "23502" ==> r.message == "Required field missing"
    ensures code == "22P02" ==> r.message == "Invalid data format"
  {
    if code == "23505" then Failure(409, "Resource already exists")
    else if code == "23503" then Failure(400, "Referenced resource not found")
    else if code == "23502" then Failure(400, "Required field missing")
    else if code == "22P02" then Failure(400, "Invalid data format")
    else Failure(500, "Database error occurred")
  }

  /**
   * errorHandler: a truthy `code` alone decides the reply; then the two token
   * error names; then `err.status || 500`, with the error's own message
   * outside production and a fixed one in production.
   */
  function HandleError(err: AppError, production: bool): (r: Reply<()>)
    ensures !r.success && r.data.None?
    ensures Truthy(err.code) ==> r == DatabaseReply(err.code.value)
    ensures !Truthy(err.code) && err.name == "JsonWebTokenError" ==> r == Failure(401, "Invalid token")
    ensures !Truthy(err.code) && err.name == "TokenExpiredError" ==> r == Failure(401, "Token expired")
    ensures !Truthy(err.code) && err.name != "JsonWebTokenError" && err.name != "TokenExpiredError" ==>
      && r.code == (if err.status.Some? && err.status.value != 0 then err.status.value else 500)
      && r.message == (if production then "Internal server error" else err.message)
  {
    if Truthy(err.code) then DatabaseReply(err.code.value)
    else if err.name == "JsonWebTokenError" then Failure(401, "Invalid token")
    else if err.name == "TokenExpiredError" then Failure(401, "Token expired")
    else
      var status := if err.status.Some? && err.status.value != 0 then err.status.value else 500;
      Failure(status, if production then "Internal server error" else err.message)
  }

  /**
   * A database error carrying its SQLSTATE: a duplicate is a conflict, a
   * missing reference, a missing field or a malformed value is the client's
   * error, and every other condition is a server error, whatever the error's
   * name, status or message.
   */
  lemma DatabaseErrorsByCondition(e: DbError, name: string, status: Option<nat>, message: string, production: bool)
    ensures var r := HandleError(AppError(Some(SqlState(e)), name, status, message), production);
      && (e == UniqueViolation <==> r.code == 409)
      && (e == ForeignKeyViolation || e == NotNullViolation || e == InvalidTextFormat <==> r.code == 400)
      && (e == CheckViolation || e == SyntaxError || e == NegativeLimit || e == NegativeOffset <==> r.code == 500)
      && (e == ForeignKeyViolation ==> r.message == "Referenced resource not found")
      && (e == NotNullViolation ==> r.message == "Required field missing")
  {
  }

  /** In production no error's own message reaches the client. */
  lemma ProductionHidesMessages(err: AppError)
    ensures HandleError(err, true).message in {
      "Resource already exists", "Referenced resource not found", "Required field missing",
      "Invalid data format", "Database error occurred", "Invalid token", "Token expired",
      "Internal server error"}
  {
  }

  /** notFound: 404 naming the requested URL. */
  function NotFound(url: string): (r: Reply<()>)
    ensures r.code == 404 && !r.success && r.data.None?
    ensures |r.message| == |url| + 16
    ensures r.message[..6] == "Route " && r.message[|r.message| - 10..] == " not found"
    ensures r.message[6..|r.message| - 10] == url
  {
    Failure(404, "Route " + url + " not found")
  }
}
