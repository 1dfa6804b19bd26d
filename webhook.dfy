/** `webhook.ts`: the pretix webhook endpoint, guarded by HTTP Basic authentication
    (section 2 of RFC 7617) against the configured user and password. */
module Webhook {
  import opened Wrappers
  import opened Text
  import opened Base64

  /** The request body: absent or empty, valid JSON, or text that `JSON.parse` rejects. */
  datatype Body = NoBody | JsonBody | MalformedBody

  /** The `authorization` header, if the request has one, and the body. */
  datatype Request = Request(authorization: Option<string>, body: Body)

  /** `WEBHOOK_USER` and `WEBHOOK_PASS`, each possibly unset. */
  datatype Env = Env(user: Option<string>, pass: Option<string>)

  datatype Response = Response(statusCode: int, headers: seq<(string, string)>, body: string)

  /** The handler answers, or throws (a malformed body after a good header). */
  datatype Outcome = Responded(response: Response) | Threw

  /** The 401 answer with its challenge; the realm is "Protected". */
  const Unauthorized := Response(401, [("WWW-Authenticate", "Basic realm=\"Protected\"")], "Unauthorized")

  const Accepted := Response(200, [], "ok")

  /** The configured credentials, unset taken as "", joined by a colon. */
  function Credentials(env: Env): string {
    OrElse(env.user, "") + ":" + OrElse(env.pass, "")
  }

  /** `"Basic " + Buffer.from(user:pass).toString("base64")`. */
  function ExpectedAuth(env: Env): string {
    "Basic " + Encode(Utf8(Credentials(env)))
  }

  /** The handler. */
  function Handle(req: Request, env: Env): (out: Outcome)
    ensures out == Responded(Unauthorized) || out == Responded(Accepted) || out == Threw
    ensures out == Responded(Accepted) ==> req.authorization == Some(ExpectedAuth(env)) && !req.body.MalformedBody?
  {
    if req.authorization != Some(ExpectedAuth(env)) then Responded(Unauthorized)
    else if req.body.MalformedBody? then Threw
    else Responded(Accepted)
  }

  /** The request is answered 401 exactly when its header is not the expected one; a request
      without the header is always refused. Otherwise it is answered 200 "ok", unless its body
      is malformed. */
  lemma UnauthorizedIff(req: Request, env: Env)
    ensures Handle(req, env) == Responded(Unauthorized) <==> req.authorization != Some(ExpectedAuth(env))
    ensures req.authorization.None? ==> Handle(req, env) == Responded(Unauthorized)
    ensures req.authorization == Some(ExpectedAuth(env))
            ==> Handle(req, env) == if req.body.MalformedBody? then Threw else Responded(Accepted)
  {
  }

  /** A header gets through exactly when it is "Basic " followed by a base 64 text that
      decodes to the UTF-8 bytes of `user:pass`. */
  lemma AuthenticatedIff(req: Request, env: Env)
    ensures Handle(req, env) != Responded(Unauthorized)
            <==> && req.authorization.Some?
                 && |req.authorization.value| >= 6
                 && req.authorization.value[..6] == "Basic "
                 && Decode(req.authorization.value[6..]) == Some(Utf8(Credentials(env)))
  {
    if req.authorization.Some? && |req.authorization.value| >= 6 {
      var h := req.authorization.value;
      DecodeIff(h[6..], Utf8(Credentials(env)));
      assert h == h[..6] + h[6..];
    }
  }

  /** With neither variable set, the only accepted header is "Basic Og==", the encoding of ":". */
  lemma DefaultCredentials(env: Env)
    requires env.user.None? && env.pass.None?
    ensures ExpectedAuth(env) == "Basic Og=="
  {
    assert Credentials(env) == ":";
    assert Utf8(":") == [58];
    assert Encode([58]) == "Og==";
  }
}
