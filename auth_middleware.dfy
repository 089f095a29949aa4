/** The `auth` middleware in front of every file route: reads the
    `Authorization` header, takes the token after the first space, and lets
    the request through with the token's decoded payload, refuses it with 401,
    or hands a 403 error to the error middleware. `jwt.verify` with the
    server's key is the parameter `verify`: `None` when it throws. */
module AuthMiddleware {
  import opened Outcomes
  import opened JsRuntime
  import opened ErrorMiddleware

  /** The decoded token payload that becomes `req.user`. */
  datatype Claims = Claims(id: JsValue)

  datatype AuthOutcome =
    | Reject(status: int, body: string)   // `res.status(401).send(...)`
    | Proceed(user: Claims)               // `req.user = decoded; next()`
    | Forward(error: Failure)             // `next(error)`

  const Unauthorized: int := 401
  const NoToken: string := "Access Denied. No token provided."
  const InvalidToken: Failure := Custom(Some(403), "Invalid token")

  /** `header.split(" ")[1]`, or `None` for `undefined`. */
  function BearerField(header: string): Option<string> {
    var parts := Split(header, " ");
    if |parts| >= 2 then Some(parts[1]) else None
  }

  /** The header yields a token: field 1 exists and is non-empty. */
  predicate HasToken(header: Option<string>) {
    header.Some? && BearerField(header.value).Some? && BearerField(header.value).value != ""
  }

  function Authenticate(header: Option<string>, verify: string -> Option<Claims>): (r: AuthOutcome)
    ensures !HasToken(header) <==> r == Reject(Unauthorized, NoToken)
    ensures r.Reject? ==> r == Reject(Unauthorized, NoToken)
    ensures HasToken(header) ==> var token := BearerField(header.value).value;
      if verify(token).Some? then r == Proceed(verify(token).value) else r == Forward(InvalidToken)
  {
    if header.None? || header.value == "" then Reject(Unauthorized, NoToken)
    else
      var token := BearerField(header.value);
      if token.None? || token.value == "" then Reject(Unauthorized, NoToken)
      else if verify(token.value).Some? then Proceed(verify(token.value).value)
      else Forward(InvalidToken)
  }

  /** Any first word passes: "Bearer", "Basic" or "x" in front of a token are
      treated alike, and the token is exactly the second word. */
  lemma SchemeUnchecked(scheme: string, token: string)
    requires ' ' !in scheme && ' ' !in token && token != ""
    ensures BearerField(scheme + " " + token) == Some(token)
    ensures HasToken(Some(scheme + " " + token))
  {
    var parts := [scheme, token];
    assert Join(parts, " ") == scheme + " " + token by {
      assert parts[1..] == [token];
    }
    SplitJoin(parts, " ");
  }

  /** A header of one word, such as "Bearer", has no token. */
  lemma OneWordRejected(word: string, verify: string -> Option<Claims>)
    requires ' ' !in word
    ensures Authenticate(Some(word), verify) == Reject(Unauthorized, NoToken)
  {
    NoCharNoMatch(word, " ");
    SplitNone(word, " ");
  }

  /** Two spaces after the first word leave field 1 empty: "Bearer  x" is
      refused although a token follows. */
  lemma DoubleSpaceRejected(word: string, rest: string, verify: string -> Option<Claims>)
    requires ' ' !in word
    ensures Authenticate(Some(word + "  " + rest), verify) == Reject(Unauthorized, NoToken)
  {
    var h := word + " " + (" " + rest);
    assert word + "  " + rest == h;
    forall j | 0 <= j < |word| ensures !MatchAt(h, " ", j) {
      MatchOneChar(h, " ", j);
      assert h[j] == word[j];
    }
    SplitAfter(word, " ", " " + rest);
    assert "" + " " + rest == " " + rest;
    SplitAfter("", " ", rest);
    assert Split(h, " ")[1] == "";
  }

  /** A token that fails verification ends as a 403 reply saying
      "Invalid token". */
  lemma InvalidTokenIs403()
    ensures HandleError(InvalidToken) == Reply(403, ErrorResponse(403, "Invalid token", InvalidToken))
  {
  }
}
