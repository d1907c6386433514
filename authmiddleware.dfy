/** The bearer-token check of forumApi/middleware/auth.middleware.js. */
module AuthMiddleware {

  import opened Base
  import opened Strings
  import opened Errors

  /** The `user` object the token payload carries. */
  datatype UserClaim = UserClaim(id: Value)

  /** A decoded token payload; `user` is `None` when the payload has no such field. */
  datatype Claims = Claims(user: Option<UserClaim>, sub: Value)

  /** `jwt.verify(token, JWT_SECRET)`, left uninterpreted: the payload, or `None` when it throws
      (bad signature, expired, malformed). */
  type JwtVerify = string -> Option<Claims>

  const BearerPrefix := "Bearer "
  const InvalidTokenMessage := "Token invalide ou expiré."

  /** What the middleware decides for an `Authorization` header: the claim it stores in
      `req.user`, or the error it passes to `next`. Each failure, the missing header included, ends
      in the catch block, which swaps the thrown error for one fixed error. */
  function Authenticate(authorization: Value, verify: JwtVerify): (r: Result<Option<UserClaim>>)
    ensures r.Err? ==> r.error == Unauthenticated(InvalidTokenMessage)
    ensures authorization.Str? && StartsWith(authorization.s, BearerPrefix) ==>
      Part(authorization.s, " ", 1).Some?
    ensures r.Ok? <==> authorization.Str? && StartsWith(authorization.s, BearerPrefix)
                       && verify(Part(authorization.s, " ", 1).value).Some?
    ensures r.Ok? ==> r.value == verify(Part(authorization.s, " ", 1).value).value.user
  {
    if !Truthy(authorization) || !authorization.Str? || !StartsWith(authorization.s, BearerPrefix) then
      Err(Unauthenticated(InvalidTokenMessage))
    else
      var s := authorization.s;
      assert s[6] == ' ';
      SplitCharParts(s, ' ');
      var token := Part(s, " ", 1).value;
      match verify(token)
      case None => Err(Unauthenticated(InvalidTokenMessage))
      case Some(payload) => Ok(payload.user)
  }

  /** The token read is the text between the first and the second space: "Bearer t" and
      "Bearer t x" both hand `t` to the verifier. */
  lemma TokenAfterBearer(t: string, extra: Option<string>)
    requires ' ' !in t
    ensures var header := if extra.Some? then BearerPrefix + t + " " + extra.value else BearerPrefix + t;
      Part(header, " ", 1) == Some(t)
  {
    var tail := if extra.Some? then " " + extra.value else "";
    assert (if extra.Some? then BearerPrefix + t + " " + extra.value else BearerPrefix + t)
        == "Bearer" + [' '] + t + tail;
    FirstTwoPieces("Bearer", t, tail, ' ');
  }

  /** Every rejection answers 401 with the same message, whatever went wrong. */
  lemma RejectionIs401(authorization: Value, verify: JwtVerify)
    requires Authenticate(authorization, verify).Err?
    ensures StatusCodeOf(Authenticate(authorization, verify).error) == Some(401)
    ensures MessageOf(Authenticate(authorization, verify).error) == InvalidTokenMessage
  {
  }

  /** The request as the middleware sees it: the stored user, and the arguments of every call
      to `next` so far (`None` for a plain `next()`). */
  class Request {
    var user: Option<UserClaim>
    var nextCalls: seq<Option<Error>>

    constructor (user: Option<UserClaim>)
      ensures this.user == user && nextCalls == []
    {
      this.user := user;
      nextCalls := [];
    }
  }

  /** `authMiddleware(req, res, next)`: `next` is called exactly once, with no argument after
      storing the claim, or with the error; on failure `req.user` is left as it was. */
  method Handle(req: Request, authorization: Value, verify: JwtVerify)
    modifies req
    ensures var r := Authenticate(authorization, verify);
      && req.nextCalls == old(req.nextCalls) + [if r.Ok? then None else Some(r.error)]
      && req.user == (if r.Ok? then r.value else old(req.user))
  {
    var r := Authenticate(authorization, verify);
    if r.Ok? {
      req.user := r.value;
      req.nextCalls := req.nextCalls + [None];
    } else {
      req.nextCalls := req.nextCalls + [Some(r.error)];
    }
  }
}
