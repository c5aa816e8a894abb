/**
  `lib/auth.js`: reads the `Authorization` header, splits it on a space and verifies the second
  piece as a token. It either returns the token's payload and writes nothing, or returns null
  after writing exactly one 401 response.
*/
module Auth {
  import opened Wrappers
  import opened JsText
  import opened Oracles
  import opened Http

  const MissingHeader: string := "Missing authorization header"
  const MalformedHeader: string := "Malformed authorization header"
  const InvalidToken: string := "Invalid token"

  /** What `auth(req, res)` returns and what it wrote to `res`. */
  datatype AuthOutcome = AuthOutcome(user: Option<Payload>, written: Option<Response>)

  function Unauthorized(message: string): Response {
    Response(401, Message(message))
  }

  /** `auth(req, res)` at time `now`. */
  function Authenticate(j: Jwt, header: Option<string>, now: int): (o: AuthOutcome)
    ensures o.user.Some? <==> o.written.None?
    ensures o.written.Some? ==> o.written.value.status == 401
    ensures Falsy(header) ==> o.written == Some(Unauthorized(MissingHeader))
    ensures !Falsy(header) && Count(header.value, ' ') != 1 ==> o.written == Some(Unauthorized(MalformedHeader))
    ensures !Falsy(header) && Count(header.value, ' ') == 1 ==>
      o.user == j.verify(Split(header.value, ' ')[1], now)
      && (o.user.None? ==> o.written == Some(Unauthorized(InvalidToken)))
  {
    if Falsy(header) then AuthOutcome(None, Some(Unauthorized(MissingHeader)))
    else
      var parts := Split(header.value, ' ');
      if |parts| != 2 then AuthOutcome(None, Some(Unauthorized(MalformedHeader)))
      else
        match j.verify(parts[1], now)
        case None => AuthOutcome(None, Some(Unauthorized(InvalidToken)))
        case Some(p) => AuthOutcome(Some(p), None)
  }

  /**
    The scheme word is never looked at: any space-free word in front of the token authenticates
    exactly as `Bearer` does, and the token is all of the text after the space.
  */
  lemma SchemeIgnored(j: Jwt, scheme: string, token: string, now: int)
    requires ' ' !in scheme && ' ' !in token
    ensures Split(scheme + " " + token, ' ') == [scheme, token]
    ensures Authenticate(j, Some(scheme + " " + token), now) == Authenticate(j, Some("Bearer " + token), now)
  {
    SplitAtOnlySeparator(scheme, token, ' ');
    SplitAtOnlySeparator("Bearer", token, ' ');
    assert scheme + " " + token == scheme + [' '] + token;
    assert "Bearer " + token == "Bearer" + [' '] + token;
  }

  /** A header is passed on to verification exactly when it holds one space. */
  lemma HeaderArity(header: string)
    requires header != ""
    ensures |Split(header, ' ')| == 2 <==> Count(header, ' ') == 1
  {
  }

  /**
    Round trip with the signer: a bearer header carrying a token the oracle signed yields the
    signed claims while the token is fresh, and 401 "Invalid token" once it has expired.
  */
  lemma BearerRoundTrip(j: Jwt, c: Claims, iat: int, now: int)
    requires JwtSound(j)
    ensures var o := Authenticate(j, Some("Bearer " + j.sign(c, iat, TokenLifetime)), now);
      && (now < iat + TokenLifetime ==> o.user == Some(Payload(c, iat, iat + TokenLifetime)) && o.written.None?)
      && (now >= iat + TokenLifetime ==> o.user.None? && o.written == Some(Unauthorized(InvalidToken)))
  {
    var t := j.sign(c, iat, TokenLifetime);
    SplitAtOnlySeparator("Bearer", t, ' ');
    assert "Bearer " + t == "Bearer" + [' '] + t;
  }
}
