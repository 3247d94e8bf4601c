/**
 * The two Express middlewares: the bearer-token gate in front of the listing route and
 * the error handler at the end of the chain. Each is a decision from its inputs to the
 * response it writes (or to handing the request on).
 */
module Middlewares {

  import opened Wrappers
  import opened JsString

  /** A JSON error response: status code, and the `status`, `message` and `stack` members present. */
  datatype Response = Response(code: int, status: Option<string>, message: string, stack: Option<string>)

  // ---------------------------------------------------------------- verifyToken

  const BEARER := "Bearer"
  const BEARER_PREFIX := "Bearer "
  const TOKEN_MISSING := "Token não encontrado"
  const TOKEN_INVALID := "Token inválido"

  /** What `verifyToken` does with a request: answer it, or call `next`. */
  datatype Gate = Respond(response: Response) | Next

  /** The token `verifyToken` checks: the second field of the header split on spaces. */
  function HeaderToken(authorization: string): (token: string)
    requires StartsWith(authorization, BEARER_PREFIX)
    ensures token == TakeUntil(authorization[|BEARER_PREFIX|..], ' ')
  {
    var rest := authorization[|BEARER_PREFIX|..];
    assert authorization == BEARER + [' '] + rest;
    SplitAfterWord(BEARER, rest, ' ');
    FirstFieldIsTakeUntil(rest, ' ');
    Split(authorization, ' ')[1]
  }

  /**
   * `verifyToken`: the `authorization` header (`None` when it is missing or not a string)
   * must start with "Bearer " exactly; the token after it is then handed to the verifier
   * with the secret, and only a token the verifier accepts lets the request through.
   */
  function VerifyToken(authorization: Option<string>, verify: (string, string) -> bool, secret: string): (gate: Gate)
    ensures gate == Respond(Response(401, Some("error"), TOKEN_MISSING, None)) <==>
      authorization.None? || !StartsWith(authorization.value, BEARER_PREFIX)
    ensures gate == Respond(Response(403, Some("error"), TOKEN_INVALID, None)) <==>
      authorization.Some? && StartsWith(authorization.value, BEARER_PREFIX) &&
      !verify(TakeUntil(authorization.value[|BEARER_PREFIX|..], ' '), secret)
    ensures gate == Next <==>
      authorization.Some? && StartsWith(authorization.value, BEARER_PREFIX) &&
      verify(TakeUntil(authorization.value[|BEARER_PREFIX|..], ' '), secret)
  {
    if authorization.None? || !StartsWith(authorization.value, BEARER_PREFIX) then
      Respond(Response(401, Some("error"), TOKEN_MISSING, None))
    else if !verify(HeaderToken(authorization.value), secret) then
      Respond(Response(403, Some("error"), TOKEN_INVALID, None))
    else
      Next
  }

  /** Without the bearer prefix the verifier is never consulted: any verifier gives the same answer. */
  lemma NoVerificationWithoutBearer(authorization: Option<string>, v1: (string, string) -> bool,
                                    v2: (string, string) -> bool, secret: string)
    requires authorization.None? || !StartsWith(authorization.value, BEARER_PREFIX)
    ensures VerifyToken(authorization, v1, secret) == VerifyToken(authorization, v2, secret)
  {
  }

  /** A space-free word after "Bearer ", followed by nothing or by a space, is the token. */
  lemma {:induction false} HeaderTokenOfWord(word: string, tail: string)
    requires ' ' !in word && (tail == "" || tail[0] == ' ')
    ensures HeaderToken(BEARER_PREFIX + word + tail) == word
  {
    assert (BEARER_PREFIX + word + tail)[|BEARER_PREFIX|..] == word + tail;
    TakeUntilWord(word, tail, ' ');
  }

  /** Concrete headers: the token is the text after "Bearer " up to the next space. */
  lemma HeaderTokenExamples()
    ensures HeaderToken("Bearer abc") == "abc"
    ensures HeaderToken("Bearer abc def") == "abc"
    ensures HeaderToken("Bearer ") == ""
  {
    assert "Bearer abc" == BEARER_PREFIX + "abc" + "";
    HeaderTokenOfWord("abc", "");
    assert "Bearer abc def" == BEARER_PREFIX + "abc" + " def";
    HeaderTokenOfWord("abc", " def");
    assert "Bearer " == BEARER_PREFIX + "" + "";
    HeaderTokenOfWord("", "");
  }

  // ---------------------------------------------------------------- handleError

  const JSON_FORMAT_INVALID := "Formato JSON inválido"
  const INTERNAL_ERROR := "Internal server error"

  /** An uncaught error: its `name`, `message` and `stack` (which may be undefined). */
  datatype ErrorValue = ErrorValue(name: string, message: string, stack: Option<string>)

  /** A body that failed to parse as JSON. */
  predicate IsJsonSyntaxError(error: ErrorValue)
  {
    error.name == "SyntaxError" && Includes(error.message, "JSON")
  }

  /**
   * `handleError`: a JSON syntax error becomes 400 with a fixed message; everything else
   * becomes 500, with the stack attached only when NODE_ENV is "debug".
   */
  function HandleError(error: ErrorValue, nodeEnv: string): (response: Response)
    ensures response.code == 400 <==>
      error.name == "SyntaxError" && exists i: nat :: OccursAt(error.message, "JSON", i)
    ensures response.code == 400 ==> response == Response(400, Some("error"), JSON_FORMAT_INVALID, None)
    ensures response.code != 400 ==>
      response.code == 500 && response.status.None? && response.message == INTERNAL_ERROR
    ensures response.code == 500 ==> response.stack == (if nodeEnv == "debug" then error.stack else None)
  {
    var isDebugMode := nodeEnv == "debug";
    if IsJsonSyntaxError(error) then
      Response(400, Some("error"), JSON_FORMAT_INVALID, None)
    else
      Response(500, None, INTERNAL_ERROR, if isDebugMode then error.stack else None)
  }

  /** A syntax error that does not mention JSON is an internal error like any other. */
  lemma OtherSyntaxErrorIsInternal(message: string, stack: Option<string>, nodeEnv: string)
    requires !Includes(message, "JSON")
    ensures HandleError(ErrorValue("SyntaxError", message, stack), nodeEnv) ==
      Response(500, None, INTERNAL_ERROR, if nodeEnv == "debug" then stack else None)
  {
  }

  /** A SyntaxError message without "JSON", such as "Unexpected end of input", is answered with 500. */
  lemma NonJsonSyntaxMessageIsInternal(stack: Option<string>, nodeEnv: string)
    ensures HandleError(ErrorValue("SyntaxError", "Unexpected end of input", stack), nodeEnv).code == 500
  {
    var m := "Unexpected end of input";
    assert 'J' !in m;
    NotIncludedWithoutFirstChar(m, "JSON");
    OtherSyntaxErrorIsInternal(m, stack, nodeEnv);
  }

  /** A body cut short fails to parse with "Unexpected end of JSON input", which is answered with 400. */
  lemma TruncatedJsonBodyIsBadRequest(stack: Option<string>, nodeEnv: string)
    ensures HandleError(ErrorValue("SyntaxError", "Unexpected end of JSON input", stack), nodeEnv) ==
      Response(400, Some("error"), JSON_FORMAT_INVALID, None)
  {
    assert OccursAt("Unexpected end of JSON input", "JSON", 18);
  }
}
