/**
 * The request guards (Backend/middleware/auth.js): authenticateToken, which
 * takes the token from the Authorization header, verifies it and checks that
 * its user still exists; authorizeRoles, which admits listed roles only; and
 * optionalAuth, which attaches the user when it can and never refuses. Token
 * verification (jsonwebtoken with the server's secret) is the parameter
 * `verify`.
 */
module AuthMiddleware {
  import opened Basics
  import opened Store
  import opened Text
  import AuthController

  /** What `jwt.verify` yields: the decoded claims, or the name of the error it throws. */
  datatype Verified =
    | Decoded(payload: AuthController.TokenPayload)
    | Expired          // TokenExpiredError
    | Malformed        // JsonWebTokenError
    | OtherFailure     // any other error, such as NotBeforeError

  /** `req.user`: the claims of a verified token. */
  datatype AuthUser = AuthUser(userId: int, email: string, role: string)

  /** The request object, of which the guards change only `user`. */
  class Request {
    var user: Option<AuthUser>

    constructor()
      ensures user.None?
    {
      user := None;
    }
  }

  /** What a guard does with the request: hand it to the next handler, or answer it. */
  datatype Outcome = Next | Respond(reply: Reply<()>)

  /**
   * `authHeader && authHeader.split(' ')[1]`: the second space-separated
   * piece, when the header is present and that piece exists and is not empty.
   * The first piece, the scheme, is never looked at.
   */
  function TokenOf(header: Option<string>): (token: Option<string>)
    ensures token.Some? ==> Truthy(header) && token.value != "" && ' ' !in token.value
    ensures token.Some? ==> |Split(header.value, ' ')| >= 2 && token.value == Split(header.value, ' ')[1]
    ensures Truthy(header) && |Split(header.value, ' ')| >= 2 && Split(header.value, ' ')[1] != "" ==>
      token == Some(Split(header.value, ' ')[1])
  {
    if !Truthy(header) then None
    else
      var pieces := Split(header.value, ' ');
      if |pieces| >= 2 && pieces[1] != "" then Some(pieces[1]) else None
  }

  /** A header `<scheme> <token>` yields the token, whatever the scheme. */
  lemma TokenAfterAnyScheme(scheme: string, token: string)
    requires ' ' !in scheme && ' ' !in token && token != ""
    ensures TokenOf(Some(scheme + " " + token)) == Some(token)
  {
    SplitJoin([scheme, token], ' ');
    assert Join([scheme, token], " ") == scheme + " " + Join([token], " ");
  }

  /**
   * The decision authenticateToken reaches: the user the token names, or the
   * reply that refuses the request. The user's existence is checked against
   * the users table, but the attached email and role are the token's.
   */
  function Authenticate(header: Option<string>, users: seq<UserRow>, verify: string -> Verified)
    : (r: Result<AuthUser, Reply<()>>)
    ensures TokenOf(header).None? ==> r == Err(Failure(401, "Access token required"))
    ensures TokenOf(header).Some? ==> match verify(TokenOf(header).value)
      case Expired => r == Err(Failure(401, "Token expired"))
      case Malformed => r == Err(Failure(401, "Invalid token"))
      case OtherFailure => r == Err(Failure(500, "Token verification failed"))
      case Decoded(p) =>
        && (p.userId !in UserIds(users) ==> r == Err(Failure(401, "User not found")))
        && (p.userId in UserIds(users) ==> r == Ok(AuthUser(p.userId, p.email, p.role)))
  {
    match TokenOf(header)
    case None => Err(Failure(401, "Access token required"))
    case Some(token) =>
      match verify(token)
      case Decoded(p) =>
        if UserIndex(users, p.userId) < 0 then Err(Failure(401, "User not found"))
        else Ok(AuthUser(p.userId, p.email, p.role))
      case Expired => Err(Failure(401, "Token expired"))
      case Malformed => Err(Failure(401, "Invalid token"))
      case OtherFailure => Err(Failure(500, "Token verification failed"))
  }

  /**
   * A passed request carries a user that exists, and every refusal is a 401
   * except the 500 of an unexpected verification error.
   */
  lemma AuthenticatedUserExists(header: Option<string>, users: seq<UserRow>, verify: string -> Verified)
    ensures var r := Authenticate(header, users, verify);
      && (r.Ok? ==> r.value.userId in UserIds(users) && TokenOf(header).Some?)
      && (r.Err? ==> !r.error.success && (r.error.code == 401 || r.error.code == 500))
      && (r.Err? && r.error.code == 500 ==> verify(TokenOf(header).value).OtherFailure?)
  {
  }

  /**
   * The role a request acts with is the one signed into the token, even when
   * the stored row's role has changed since.
   */
  lemma RoleComesFromToken(header: Option<string>, users: seq<UserRow>, verify: string -> Verified,
                           p: AuthController.TokenPayload, k: int)
    requires TokenOf(header).Some? && verify(TokenOf(header).value) == Decoded(p)
    requires 0 <= k < |users| && users[k].id == p.userId && users[k].role != p.role
    ensures Authenticate(header, users, verify).Ok?
    ensures Authenticate(header, users, verify).value.role == p.role != users[k].role
  {
  }

  /** authenticateToken: attaches the user and passes the request on, or answers with the refusal. */
  method AuthenticateToken(req: Request, header: Option<string>, users: seq<UserRow>, verify: string -> Verified)
    returns (o: Outcome)
    modifies req
    ensures var d := Authenticate(header, users, verify);
      && (d.Ok? ==> o == Next && req.user == Some(d.value))
      && (d.Err? ==> o == Respond(d.error) && req.user == old(req.user))
  {
    var token := TokenOf(header);
    if token.None? {
      return Respond(Failure(401, "Access token required"));
    }
    var verified := verify(token.value);
    match verified
    case Decoded(p) =>
      if UserIndex(users, p.userId) < 0 {
        return Respond(Failure(401, "User not found"));
      }
      req.user := Some(AuthUser(p.userId, p.email, p.role));
      o := Next;
    case Expired =>
      o := Respond(Failure(401, "Token expired"));
    case Malformed =>
      o := Respond(Failure(401, "Invalid token"));
    case OtherFailure =>
      o := Respond(Failure(500, "Token verification failed"));
  }

  /**
   * authorizeRoles(roles): passes exactly the users whose role is listed, and
   * names the listed roles in the 403 it answers otherwise.
   */
  function AuthorizeRoles(roles: seq<string>, user: AuthUser): (o: Outcome)
    ensures o == Next <==> user.role in roles
    ensures o != Next ==> o == Respond(Failure(403, "Insufficient permissions. Required roles: " + Join(roles, ", ")))
  {
    if user.role in roles then Next
    else Respond(Failure(403, "Insufficient permissions. Required roles: " + Join(roles, ", ")))
  }

  /** An admin-only route, `authorizeRoles(['admin'])`, refuses every ordinary user. */
  lemma AdminOnlyRefusesUsers(user: AuthUser)
    requires user.role == RoleUser
    ensures AuthorizeRoles([RoleAdmin], user) == Respond(Failure(403, "Insufficient permissions. Required roles: admin"))
  {
  }

  /**
   * optionalAuth: always passes the request on; it attaches the user exactly
   * when authenticateToken would, and otherwise leaves `req.user` alone.
   */
  method OptionalAuth(req: Request, header: Option<string>, users: seq<UserRow>, verify: string -> Verified)
    returns (o: Outcome)
    modifies req
    ensures o == Next
    ensures Authenticate(header, users, verify).Ok? ==> req.user == Some(Authenticate(header, users, verify).value)
    ensures Authenticate(header, users, verify).Err? ==> req.user == old(req.user)
  {
    var token := TokenOf(header);
    if token.Some? {
      var verified := verify(token.value);
      if verified.Decoded? && UserIndex(users, verified.payload.userId) >= 0 {
        var p := verified.payload;
        req.user := Some(AuthUser(p.userId, p.email, p.role));
      }
    }
    o := Next;
  }
}
