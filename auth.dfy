/**
 * The authorization rule guarding the `/set` endpoints, as a pure function of the
 * configured token and what the request presents.
 */
module Auth {
  import opened Wrappers
  import opened Text

  const BearerScheme := "Bearer"

  /**
   * `check_auth()`: with no configured token every request passes; otherwise the
   * `Authorization` header (default "") must start with "Bearer " and carry the token
   * after its first space, or the `token` query argument (default "") must equal the
   * token. The request passes exactly when the header is "Bearer " followed by the
   * token or the query argument is the token.
   */
  function CheckAuth(token: string, authorization: Option<string>, tokenArg: Option<string>): (ok: bool)
    ensures ok <==> token == "" || authorization == Some(BearerScheme + " " + token) || tokenArg == Some(token)
  {
    if token == "" then true
    else
      var auth := authorization.GetOr("");
      assert authorization == Some(BearerScheme + " " + token) ==> auth[|BearerScheme| + 1..] == token;
      assert BearerScheme + " " <= auth ==> auth == BearerScheme + " " + auth[|BearerScheme| + 1..];
      if BearerScheme + " " <= auth && SplitAfterScheme(auth) == token then true
      else tokenArg.GetOr("") == token
  }

  /** `auth.split(" ", 1)[1]` for a header that starts with "Bearer ". */
  function SplitAfterScheme(auth: string): (rest: string)
    requires BearerScheme + " " <= auth
    ensures rest == auth[|BearerScheme| + 1..]
  {
    SplitOnceAfterWord(auth, BearerScheme, ' ');
    SplitOnce(auth, ' ')[1]
  }
}
