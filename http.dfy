/** What the HTTP handlers produce: a response with status, headers and
    body, or a thrown error that the error-handling middleware turns into a
    response. */
module Http {
  import opened Wrappers
  import opened JsText
  import opened TodoModel
  import opened DataAccess

  /** A response body: `JSON.stringify` of a string or of a record, or a
      plain message. */
  datatype Body = JsonString(s: string) | JsonTodo(item: TodoItem) | Text(message: string)

  datatype Response = Response(statusCode: int, headers: map<string, string>, body: Body)

  datatype Failure =
    | NoAuthorizationHeader         // `event.headers.Authorization` is undefined
    | TokenRejected                 // the identity provider refused the token
    | StoreRejected(error: StoreError)

  datatype Outcome = Responded(response: Response) | Threw(failure: Failure)

  const CorsHeaders: map<string, string> := map["Access-Control-Allow-Origin" := "*"]

  function Success(body: Body): Response
  {
    Response(200, CorsHeaders, body)
  }

  function NotFound(message: string): Response
  {
    Response(404, CorsHeaders, Text(message))
  }

  /** `authorization.split(' ')[1]`: the second space-separated word, or
      `undefined` when the header holds no space. */
  function BearerToken(authorization: string): (token: Option<string>)
    ensures token.Some? <==> ' ' in authorization
  {
    var split := Split(authorization, ' ');
    if |split| > 1 then Some(split[1]) else None
  }

  /** For credentials "<scheme> <token>" (section 2.1 of RFC 6750) the
      extracted word is the token. */
  lemma BearerTokenOfCredentials(scheme: string, token: string)
    requires ' ' !in scheme && ' ' !in token
    ensures BearerToken(scheme + " " + token) == Some(token)
  {
    assert scheme + " " + token == Join([scheme, token], ' ');
    SplitOfJoin([scheme, token], ' ');
  }

  /** RFC 6750 allows several spaces after the scheme, but then the second
      word of the split is empty and the token is lost. */
  lemma BearerTokenAfterTwoSpaces(scheme: string, token: string)
    requires ' ' !in scheme && ' ' !in token
    ensures BearerToken(scheme + "  " + token) == Some("")
  {
    assert Join(["", token], ' ') == [' '] + token by {
      assert ["", token][1..] == [token];
    }
    assert [scheme, "", token][1..] == ["", token];
    assert scheme + "  " + token == Join([scheme, "", token], ' ');
    SplitOfJoin([scheme, "", token], ' ');
  }
}
