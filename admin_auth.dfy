/**
 * `/api/auth/admin`, the GitHub sign-in of the moderation page: the same
 * exchange, lookup and allow-list as the editor's sign-in, but every
 * outcome is a 302 redirect, back to `/admin/comments/` with either
 * `error=<message>` or `token=...&user=...`.
 */
module AdminAuth {
  import opened Wrappers
  import opened JsStrings
  import opened GitHubOAuth
  import opened UriEncoding

  datatype AdminEnv = AdminEnv(clientId: Option<JsString>, allowedUsers: Option<JsString>)

  datatype AdminRedirect =
    | ToGitHub(request: AuthorizeRequest)
    | ToErrorPage(location: JsString)
    | ToSession(origin: JsString, token: Option<JsString>, user: GitHubUser)

  /** `Response.redirect(..., 302)` on every path. */
  function RedirectStatus(r: AdminRedirect): int {
    302
  }

  const CallbackPath: JsString := "/api/auth/admin"
  const AdminScope: JsString := "read:user"

  const ErrorPath: JsString := "/admin/comments/?error="

  /** `${origin}/admin/comments/?error=` */
  function ErrorPrefix(origin: JsString): JsString {
    origin + ErrorPath
  }

  /** The error page's address, with the message URI-encoded. */
  function ErrorLocation(origin: JsString, message: JsString): JsString {
    ErrorPrefix(origin) + Encode(message)
  }

  const AuthFailed: JsString := "Authentication failed: "
  const OAuthFailed: JsString := "OAuth failed"
  const DeniedPrefix: JsString := "Access denied for @"
  const DeniedSuffix: JsString := ". You are not authorized."

  /** What the handler settles on before it builds the redirect: GitHub's
      sign-in page, the error page with a message, or the session. */
  datatype AdminOutcome =
    | Authorize
    | Fail(message: JsString)
    | Session(token: Option<JsString>, user: GitHubUser)

  /** The decision tree of `onRequest`, with the fetch results as inputs; a
      thrown error becomes `Authentication failed: <message>`. */
  function AdminDecision(hasCode: bool, allowedUsers: Option<JsString>,
                         token: Fetched<TokenReply>, user: Fetched<GitHubUser>): AdminOutcome
  {
    if !hasCode then Authorize
    else match token
      case Threw(m) => Fail(AuthFailed + m)
      case Got(t) =>
        if Truthy(t.error) then
          Fail(if Truthy(t.errorDescription) then t.errorDescription.value else OAuthFailed)
        else match user
          case Threw(m) => Fail(AuthFailed + m)
          case Got(u) =>
            match Decide(ParseAllowList(allowedUsers), u.login)
            case LoginMissing => Fail(AuthFailed + LoginTypeError)
            case Denied(login) => Fail(DeniedPrefix + login + DeniedSuffix)
            case Admitted => Session(t.accessToken, u)
  }

  /** `onRequest`: the decision turned into a 302 address. */
  function AdminSignIn(origin: JsString, hasCode: bool, env: AdminEnv, state: JsString,
                       token: Fetched<TokenReply>, user: Fetched<GitHubUser>): AdminRedirect
  {
    match AdminDecision(hasCode, env.allowedUsers, token, user)
    case Authorize => ToGitHub(SignIn(origin, env.clientId, CallbackPath, AdminScope, state))
    case Fail(message) => ToErrorPage(ErrorLocation(origin, message))
    case Session(accessToken, u) => ToSession(origin, accessToken, u)
  }

  /** The message the error page reads back from its `error` parameter. */
  lemma ErrorLocationDecodes(origin: JsString, message: JsString)
    ensures var loc := ErrorLocation(origin, message);
            var n := |ErrorPrefix(origin)|;
            n <= |loc| && loc[..n] == ErrorPrefix(origin) && Decode(loc[n..]) == Some(message)
  {
    var loc := ErrorLocation(origin, message);
    var n := |ErrorPrefix(origin)|;
    assert loc[n..] == Encode(message);
    DecodeEncode(message);
  }

  /** No `token=` starts at position i of an error address whose origin
      and encoded message hold no `=`: the only `=` ends `error=`. */
  lemma NoTokenAt(origin: JsString, encoded: JsString, i: int)
    requires '=' !in origin && '=' !in encoded
    ensures !OccursAt(origin + ErrorPath + encoded, "token=", i)
  {
    var loc := origin + ErrorPath + encoded;
    var n := |origin|;
    if 0 <= i <= |loc| - 6 {
      var w := loc[i..i + 6];
      assert w[4] == loc[i + 4] && w[5] == loc[i + 5];
      if i + 5 < n {
        assert loc[i + 5] == origin[i + 5];
      } else if i + 5 < n + 22 {
        assert loc[i + 5] == ErrorPath[i + 5 - n];
      } else if i + 5 == n + 22 {
        assert loc[i + 4] == ErrorPath[21];
      } else {
        assert loc[i + 5] == encoded[i + 5 - n - 23];
      }
    }
  }

  /** An error address carries no `token=` parameter, as long as the origin
      holds no `=` (an origin is scheme, host and port). */
  lemma ErrorLocationHasNoToken(origin: JsString, message: JsString)
    requires '=' !in origin
    ensures !Contains(ErrorLocation(origin, message), "token=")
  {
    var encoded := Encode(message);
    EncodedHasNoDelimiters(message);
    assert ErrorLocation(origin, message) == origin + ErrorPath + encoded;
    forall i ensures !OccursAt(origin + ErrorPath + encoded, "token=", i) {
      NoTokenAt(origin, encoded, i);
    }
  }

  /** Without a code the redirect goes to GitHub, asking only for
      `read:user` and to come back to `/api/auth/admin`. */
  lemma NoCodeRedirects(origin: JsString, env: AdminEnv, state: JsString,
                        token: Fetched<TokenReply>, user: Fetched<GitHubUser>)
    ensures var r := AdminSignIn(origin, false, env, state, token, user);
            && r.ToGitHub?
            && r.request.scope == "read:user"
            && r.request.redirectUri == origin + "/api/auth/admin"
  {
  }

  /** A token error sends the browser to the error page with GitHub's
      `error_description`, or `OAuth failed` when there is none, and never
      looks the user up. */
  lemma TokenErrorMessage(origin: JsString, env: AdminEnv, state: JsString, t: TokenReply,
                          u1: Fetched<GitHubUser>, u2: Fetched<GitHubUser>)
    requires Truthy(t.error)
    ensures var r := AdminSignIn(origin, true, env, state, Got(t), u1);
            && r == AdminSignIn(origin, true, env, state, Got(t), u2)
            && r == ToErrorPage(ErrorLocation(origin, if Truthy(t.errorDescription) then t.errorDescription.value else OAuthFailed))
  {
  }

  /** A fetch that throws, the token exchange or, after a token reply
      without `error`, the user lookup, sends the browser to the error page
      with `Authentication failed: ` and its message, and no token. */
  lemma ThrownFetchFails(origin: JsString, env: AdminEnv, state: JsString,
                         token: Fetched<TokenReply>, user: Fetched<GitHubUser>)
    requires '=' !in origin
    requires token.Threw? || (!Truthy(token.value.error) && user.Threw?)
    ensures var r := AdminSignIn(origin, true, env, state, token, user);
            && r == ToErrorPage(ErrorLocation(origin, AuthFailed + (if token.Threw? then token.message else user.message)))
            && !Contains(r.location, "token=")
  {
    ErrorLocationHasNoToken(origin, AuthFailed + (if token.Threw? then token.message else user.message));
  }

  /** A refused login is sent to the error page with a message naming it,
      and the address carries no token. */
  lemma DeniedCarriesNoToken(origin: JsString, env: AdminEnv, state: JsString, t: TokenReply, u: GitHubUser)
    requires '=' !in origin
    requires !Truthy(t.error) && Truthy(env.allowedUsers) && u.login.Some?
    requires !ListedIn(env.allowedUsers.value, u.login.value)
    ensures var r := AdminSignIn(origin, true, env, state, Got(t), Got(u));
            && r == ToErrorPage(ErrorLocation(origin, DeniedPrefix + u.login.value + DeniedSuffix))
            && !Contains(r.location, "token=")
  {
    AdmittedExactly(env.allowedUsers, u.login.value);
    ErrorLocationHasNoToken(origin, DeniedPrefix + u.login.value + DeniedSuffix);
  }

  /** The session redirect, carrying the token and the user's login, avatar
      and name, is reached exactly when the allow-list admits the login;
      every other outcome is an error-page redirect without a token, and
      all of them are 302. */
  lemma SessionOnlyWhenAdmitted(origin: JsString, hasCode: bool, env: AdminEnv, state: JsString,
                                token: Fetched<TokenReply>, user: Fetched<GitHubUser>)
    requires '=' !in origin
    ensures var r := AdminSignIn(origin, hasCode, env, state, token, user);
            && RedirectStatus(r) == 302
            && (r.ToSession? <==>
                  hasCode && token.Got? && !Truthy(token.value.error) && user.Got?
                  && Decide(ParseAllowList(env.allowedUsers), user.value.login).Admitted?)
            && (r.ToSession? ==> r.token == token.value.accessToken && r.user == user.value && r.origin == origin)
            && (r.ToErrorPage? ==> !Contains(r.location, "token="))
  {
    var d := AdminDecision(hasCode, env.allowedUsers, token, user);
    if d.Fail? {
      ErrorLocationHasNoToken(origin, d.message);
    }
  }
}
