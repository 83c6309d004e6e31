/**
 * The Go authentication handlers: `GetToken`, which issues a token for an
 * API key, and `AuthMiddleware`, which admits a request carrying a valid
 * bearer token. Both charge the client's address to the rate limiter
 * first. Token issue and verification are function parameters; the
 * request is the handful of headers the handlers read.
 */
module AuthHandler {
  import opened Wrappers
  import opened Text
  import opened Models
  import RateLimit

  /** The request headers the handlers read (`""` when absent) and the peer address. */
  datatype Request = Request(forwardedFor: string, realIP: string, remoteIP: string, authorization: string)

  /** A status code and the JSON body. */
  datatype Reply = Reply(status: int, body: APIResponse)

  /** `getClientIP`: the first `X-Forwarded-For` entry, trimmed; else `X-Real-IP`; else the peer. */
  function ClientIP(req: Request): (ip: string)
    ensures req.forwardedFor != "" ==> ',' !in ip && TrimSpace(ip) == ip
    ensures req.forwardedFor == "" && req.realIP != "" ==> ip == req.realIP
    ensures req.forwardedFor == "" && req.realIP == "" ==> ip == req.remoteIP
  {
    if req.forwardedFor != "" then
      var first := Split(req.forwardedFor, ',')[0];
      TrimInfix(first, GoSpace, ',');
      TrimSpaceIdempotent(first);
      TrimSpace(first)
    else if req.realIP != "" then req.realIP
    else req.remoteIP
  }

  /** With a forwarding list, the address is its first entry, trimmed, whatever follows the first comma. */
  lemma ClientIPFirstEntry(first: string, rest: string, realIP: string, remoteIP: string, authorization: string)
    requires ',' !in first
    ensures ClientIP(Request(first + "," + rest, realIP, remoteIP, authorization)) == TrimSpace(first)
    ensures first != "" ==> ClientIP(Request(first, realIP, remoteIP, authorization)) == TrimSpace(first)
  {
    assert first + "," + rest == first + [','] + rest;
    SplitCons(first, ',', rest);
  }

  const Bearer: string := "Bearer "

  /** The token of an `Authorization` value: without one leading `Bearer `, else the value itself. */
  function BearerToken(header: string): (token: string)
    ensures HasPrefix(header, Bearer) ==> header == Bearer + token
    ensures !HasPrefix(header, Bearer) ==> token == header
  {
    if HasPrefix(header, Bearer) then header[|Bearer|..] else header
  }

  /** The prefix is stripped once only: a doubled prefix leaves one behind. */
  lemma BearerStrippedOnce(token: string)
    ensures BearerToken(Bearer + Bearer + token) == Bearer + token
  {
    assert HasPrefix(Bearer + Bearer + token, Bearer);
  }

  /** A present header yields an empty token exactly when it is the bare prefix. */
  lemma EmptyTokenIffBarePrefix(header: string)
    requires header != ""
    ensures BearerToken(header) == "" <==> header == Bearer
  {
    if header == Bearer {
      assert HasPrefix(header, Bearer);
    }
  }

  /** What the middleware decides: a reply that ends the request, or the request passed on with its claims. */
  datatype Decision<C> = Stop(reply: Reply) | Next(claims: C, clientIP: string)

  function Error(status: int, message: string, errorType: string): Reply {
    Reply(status, APIResponse("error", message, None, Fields(map["error_type" := JStr(errorType)])))
  }

  /**
   * `AuthMiddleware`: the rate limit (429), then a missing header (401),
   * an empty token (401) and a token that does not verify (401).
   */
  function Middleware<C>(limiter: RateLimit.Limiter, req: Request, now: int,
                         verify: string -> Option<C>): (r: (Decision<C>, RateLimit.Limiter))
    ensures r.1 == RateLimit.IsAllowed(limiter, ClientIP(req), now).1
    ensures r.0.Stop? && r.0.reply.status == 429 <==> !RateLimit.IsAllowed(limiter, ClientIP(req), now).0
    ensures r.0.Next? <==>
      && RateLimit.IsAllowed(limiter, ClientIP(req), now).0
      && req.authorization != "" && BearerToken(req.authorization) != ""
      && verify(BearerToken(req.authorization)).Some?
    ensures r.0.Next? ==> r.0 == Next(verify(BearerToken(req.authorization)).value, ClientIP(req))
    ensures r.0.Stop? ==> r.0.reply.status in {401, 429}
  {
    var ip := ClientIP(req);
    var (allowed, limiter') := RateLimit.IsAllowed(limiter, ip, now);
    if !allowed then
      (Stop(Error(429, "Rate limit exceeded. Please try again later.", "RateLimitError")), limiter')
    else if req.authorization == "" then
      (Stop(Error(401, "Authorization header is required", "AuthenticationError")), limiter')
    else
      var token := BearerToken(req.authorization);
      if token == "" then
        (Stop(Error(401, "Invalid authorization header format. Use 'Bearer <token>'", "AuthenticationError")), limiter')
      else match verify(token)
        case None => (Stop(Error(401, "Invalid or expired token", "AuthenticationError")), limiter')
        case Some(claims) => (Next(claims, ip), limiter')
  }

  /** A rate-limited request is refused before its headers are read: the header and verifier make no difference. */
  lemma RateLimitBeforeHeaders<C>(limiter: RateLimit.Limiter, req: Request, now: int,
                                  verify: string -> Option<C>, authorization: string, other: string -> Option<C>)
    requires !RateLimit.IsAllowed(limiter, ClientIP(req), now).0
    ensures Middleware(limiter, req, now, verify) ==
            Middleware(limiter, req.(authorization := authorization), now, other)
  {
  }

  /** What `GetToken` does with the issued token: the token, and its expiry time. */
  datatype Issued = Issued(token: string, expiresAt: int)

  const NanosPerSecond: int := 1_000_000_000

  /**
   * Go's integer division, which truncates toward zero: the remainder has
   * the sign of the dividend and is smaller than the divisor.
   */
  function TruncDiv(a: int, b: int): (q: int)
    requires b > 0
    ensures a >= 0 ==> 0 <= a - q * b < b
    ensures a < 0 ==> -b < a - q * b <= 0
  {
    if a >= 0 then a / b
    else
      var n := -a;
      assert n == (n / b) * b + n % b;
      -(n / b)
  }

  /**
   * `GetToken`: the rate limit (429), a body that does not parse (400),
   * an empty API key (400), a key the issuer rejects (401), and otherwise
   * the token with its lifetime in whole seconds. `body` is the API key of
   * the parsed body, or nothing when the body does not parse.
   */
  function GetToken(limiter: RateLimit.Limiter, req: Request, body: Option<string>, now: int,
                    issue: string -> Option<Issued>): (r: (Reply, RateLimit.Limiter))
    ensures r.1 == RateLimit.IsAllowed(limiter, ClientIP(req), now).1
    ensures r.0.status == 429 <==> !RateLimit.IsAllowed(limiter, ClientIP(req), now).0
    ensures r.0.status == 200 <==>
      RateLimit.IsAllowed(limiter, ClientIP(req), now).0 && body.Some? && body.value != "" && issue(body.value).Some?
    ensures r.0.status == 200 ==>
      && r.0.body.data.Some? && r.0.body.data.value.Token?
      && r.0.body.data.value.token == issue(body.value).value.token
    ensures r.0.status in {200, 400, 401, 429}
  {
    var ip := ClientIP(req);
    var (allowed, limiter') := RateLimit.IsAllowed(limiter, ip, now);
    if !allowed then
      (Error(429, "Too many token requests. Please try again later.", "RateLimitError"), limiter')
    else if body.None? then
      (Error(400, "Invalid request body", "ValidationError"), limiter')
    else if body.value == "" then
      (Error(400, "API key is required in request body", "AuthenticationError"), limiter')
    else match issue(body.value)
      case None => (Error(401, "Invalid API key", "AuthenticationError"), limiter')
      case Some(issued) =>
        (Reply(200, APIResponse("success", "Token generated successfully",
                                Some(Token(issued.token, "Bearer", TruncDiv(issued.expiresAt - now, NanosPerSecond))),
                                Auth(now, issued.expiresAt))),
         limiter')
  }

  /** An empty API key is refused with 400 before the issuer is asked. */
  lemma EmptyKeyBeforeIssue(limiter: RateLimit.Limiter, req: Request, now: int,
                            issue: string -> Option<Issued>, other: string -> Option<Issued>)
    requires RateLimit.IsAllowed(limiter, ClientIP(req), now).0
    ensures GetToken(limiter, req, Some(""), now, issue).0.status == 400
    ensures GetToken(limiter, req, Some(""), now, issue) == GetToken(limiter, req, Some(""), now, other)
  {
  }
}
