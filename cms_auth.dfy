/**
 * `/api/auth`, the GitHub sign-in of the content editor: without a `code`
 * it redirects to GitHub; with one it exchanges the code for a token, looks
 * the user up, applies the allow-list and either hands the token to the
 * editor window (200) or answers 400, 403 or 500.
 */
module CmsAuth {
  import opened Wrappers
  import opened JsStrings
  import opened GitHubOAuth

  /** The environment variables the handler reads. */
  datatype CmsEnv = CmsEnv(clientId: Option<JsString>, allowedUsers: Option<JsString>)

  datatype CmsReply =
    | ToGitHub(request: AuthorizeRequest)  // 302
    | OAuthError(text: JsString)           // 400, plain text
    | AccessDenied(login: JsString)        // 403, a page naming the account
    | TokenPage(token: Option<JsString>)   // 200, the page posting the token to the editor
    | AuthFailed(text: JsString)           // 500, plain text

  function CmsStatus(r: CmsReply): int {
    match r
    case ToGitHub(_) => 302
    case OAuthError(_) => 400
    case AccessDenied(_) => 403
    case TokenPage(_) => 200
    case AuthFailed(_) => 500
  }

  /** The access token a reply carries to the browser, if any. */
  function HandedToken(r: CmsReply): Option<JsString> {
    if r.TokenPage? then r.token else None
  }

  const CallbackPath: JsString := "/api/auth"
  const CmsScope: JsString := "repo,user"

  function Failure(message: JsString): CmsReply {
    AuthFailed("Authentication failed: " + message)
  }

  /** `onRequest`. `hasCode` is whether the query has a `code` parameter;
      `state` is the random UUID; `token` and `user` are what the two
      fetches returned or threw. */
  function CmsSignIn(origin: JsString, hasCode: bool, env: CmsEnv, state: JsString,
                     token: Fetched<TokenReply>, user: Fetched<GitHubUser>): CmsReply
  {
    if !hasCode then ToGitHub(SignIn(origin, env.clientId, CallbackPath, CmsScope, state))
    else match token
      case Threw(m) => Failure(m)
      case Got(t) =>
        if Truthy(t.error) then OAuthError("OAuth Error: " + StringOf(t.errorDescription))
        else match user
          case Threw(m) => Failure(m)
          case Got(u) =>
            match Decide(ParseAllowList(env.allowedUsers), u.login)
            case LoginMissing => Failure(LoginTypeError)
            case Denied(login) => AccessDenied(login)
            case Admitted => TokenPage(t.accessToken)
  }

  /** Without a code the reply is the redirect to GitHub, asking for the
      `repo,user` scope and to come back to `/api/auth` on the same origin,
      whatever the fetches would have returned. */
  lemma NoCodeRedirects(origin: JsString, env: CmsEnv, state: JsString,
                        t1: Fetched<TokenReply>, u1: Fetched<GitHubUser>, t2: Fetched<TokenReply>, u2: Fetched<GitHubUser>)
    ensures var r := CmsSignIn(origin, false, env, state, t1, u1);
            && r == CmsSignIn(origin, false, env, state, t2, u2)
            && CmsStatus(r) == 302
            && r.request.scope == "repo,user"
            && r.request.redirectUri == origin + "/api/auth"
            && r.request.state == state
  {
  }

  /** A token reply with `error` set is answered 400 before the user is
      looked up: the user reply does not matter. */
  lemma TokenErrorStopsEarly(origin: JsString, env: CmsEnv, state: JsString, t: TokenReply,
                             u1: Fetched<GitHubUser>, u2: Fetched<GitHubUser>)
    requires Truthy(t.error)
    ensures var r := CmsSignIn(origin, true, env, state, Got(t), u1);
            && r == CmsSignIn(origin, true, env, state, Got(t), u2)
            && CmsStatus(r) == 400
            && HandedToken(r).None?
  {
  }

  /** The token reaches the browser exactly when the exchange and the
      lookup succeeded and the allow-list admits the login; it is the token
      GitHub issued. Every other reply, 403 included, carries no token. */
  lemma TokenOnlyWhenAdmitted(origin: JsString, hasCode: bool, env: CmsEnv, state: JsString,
                              token: Fetched<TokenReply>, user: Fetched<GitHubUser>)
    ensures var r := CmsSignIn(origin, hasCode, env, state, token, user);
            && (CmsStatus(r) == 200 <==>
                  hasCode && token.Got? && !Truthy(token.value.error) && user.Got?
                  && Decide(ParseAllowList(env.allowedUsers), user.value.login).Admitted?)
            && (CmsStatus(r) == 200 ==> HandedToken(r) == token.value.accessToken)
            && (CmsStatus(r) != 200 ==> HandedToken(r).None?)
  {
  }

  /** With a non-empty allow-list a login it does not name is refused with
      403 and the page names that login. */
  lemma UnlistedLoginRefused(origin: JsString, env: CmsEnv, state: JsString, t: TokenReply, u: GitHubUser)
    requires !Truthy(t.error) && Truthy(env.allowedUsers) && u.login.Some?
    requires !ListedIn(env.allowedUsers.value, u.login.value)
    ensures CmsSignIn(origin, true, env, state, Got(t), Got(u)) == AccessDenied(u.login.value)
  {
    AdmittedExactly(env.allowedUsers, u.login.value);
  }

  /** A fetch that throws, the token exchange or, after a token reply
      without `error`, the user lookup, is caught and answered 500 with
      `Authentication failed: ` and its message. */
  lemma ThrownFetchFails(origin: JsString, env: CmsEnv, state: JsString,
                         token: Fetched<TokenReply>, user: Fetched<GitHubUser>)
    requires token.Threw? || (!Truthy(token.value.error) && user.Threw?)
    ensures var r := CmsSignIn(origin, true, env, state, token, user);
            && CmsStatus(r) == 500 && HandedToken(r).None?
            && r.text == "Authentication failed: " + (if token.Threw? then token.message else user.message)
  {
  }

  /** With a non-empty allow-list a user reply without a login makes
      `toLowerCase` throw, and the handler answers 500. */
  lemma MissingLoginFails(origin: JsString, env: CmsEnv, state: JsString, t: TokenReply, u: GitHubUser)
    requires !Truthy(t.error) && Truthy(env.allowedUsers) && u.login.None?
    ensures CmsStatus(CmsSignIn(origin, true, env, state, Got(t), Got(u))) == 500
  {
  }

  /** Logins that differ only in letter case get the same status. */
  lemma StatusIgnoresCase(origin: JsString, env: CmsEnv, state: JsString, t: TokenReply,
                          u: GitHubUser, other: JsString)
    requires u.login.Some? && EqualIgnoringCase(u.login.value, other)
    ensures CmsStatus(CmsSignIn(origin, true, env, state, Got(t), Got(u)))
         == CmsStatus(CmsSignIn(origin, true, env, state, Got(t), Got(u.(login := Some(other)))))
  {
    DecisionIgnoresCase(ParseAllowList(env.allowedUsers), u.login.value, other);
  }
}
