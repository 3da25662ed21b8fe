/**
 * What the two GitHub sign-in handlers share: the authorize request they
 * redirect to, the replies of GitHub's token and user endpoints (given as
 * inputs, a fetch that throws included), and the allow-list rule over
 * `CMS_ALLOWED_USERS`.
 */
module GitHubOAuth {
  import opened Wrappers
  import opened JsStrings

  const AuthorizeEndpoint: JsString := "https://github.com/login/oauth/authorize"

  /** The result of awaiting a fetch and its `.json()`: a value, or the
      message of the error it threw. */
  datatype Fetched<T> = Got(value: T) | Threw(message: JsString)

  /** The fields read from the token endpoint's JSON. */
  datatype TokenReply = TokenReply(error: Option<JsString>, errorDescription: Option<JsString>, accessToken: Option<JsString>)

  /** The fields read from `https://api.github.com/user`. */
  datatype GitHubUser = GitHubUser(login: Option<JsString>, avatarUrl: Option<JsString>, name: Option<JsString>)

  /** The query parameters of the authorize URL, in the order they are set. */
  datatype AuthorizeRequest = AuthorizeRequest(
    endpoint: JsString, clientId: JsString, redirectUri: JsString, scope: JsString, state: JsString)

  /** The message of the TypeError `username.toLowerCase()` throws when the
      user reply has no login. */
  const LoginTypeError: JsString := "Cannot read properties of undefined " + "(reading 'toLowerCase')"

  /** The first-visit redirect: GitHub's authorize page, told to come back
      to `callbackPath` on the request's own origin. */
  function SignIn(origin: JsString, clientId: Option<JsString>, callbackPath: JsString, scope: JsString, state: JsString)
    : (r: AuthorizeRequest)
    ensures r.endpoint == AuthorizeEndpoint && r.scope == scope && r.state == state
    ensures |r.redirectUri| == |origin| + |callbackPath|
    ensures r.redirectUri[..|origin|] == origin && r.redirectUri[|origin|..] == callbackPath
  {
    AuthorizeRequest(AuthorizeEndpoint, StringOf(clientId), origin + callbackPath, scope, state)
  }

  // ---------------------------------------------------------------------
  // The allow-list
  // ---------------------------------------------------------------------

  predicate NoUpper(s: JsString) {
    forall i | 0 <= i < |s| :: !IsUpper(s[i])
  }

  /** One entry: `u.trim().toLowerCase()`. */
  function Entry(piece: JsString): (r: JsString)
    ensures NoEdgeSpaces(r) && NoUpper(r) && |r| <= |piece|
  {
    var t := Trim(piece);
    LowerFacts(t);
    Lower(t)
  }

  /** The allow-list both handlers build: nothing when the variable is unset
      or empty, otherwise one Entry per comma-separated piece. */
  function ParseAllowList(v: Option<JsString>): (r: seq<JsString>)
    ensures |r| == 0 <==> !Truthy(v)
    ensures Truthy(v) ==> |r| == Count(v.value, ',') + 1
    ensures forall k | 0 <= k < |r| :: NoEdgeSpaces(r[k]) && NoUpper(r[k])
  {
    if !Truthy(v) then []
    else
      var parts := Split(v.value, ',');
      seq(|parts|, k requires 0 <= k < |parts| => Entry(parts[k]))
  }

  /** How the allow-list check ends. */
  datatype Access =
    | Admitted
    | Denied(login: JsString)
    | LoginMissing   // `username.toLowerCase()` on undefined throws

  /** The allow-list check: an empty list admits everyone; otherwise the
      lower-cased login must be on it, and a missing login throws. */
  function Decide(allowed: seq<JsString>, login: Option<JsString>): (a: Access)
    ensures a.LoginMissing? <==> |allowed| > 0 && login.None?
    ensures a.Denied? ==> login == Some(a.login)
    ensures login.Some? ==> (a.Admitted? <==> |allowed| == 0 || Lower(login.value) in allowed)
  {
    if |allowed| == 0 then Admitted
    else if login.None? then LoginMissing
    else if Lower(login.value) in allowed then Admitted
    else Denied(login.value)
  }

  /** Logins that differ only in letter case get the same decision. */
  lemma DecisionIgnoresCase(allowed: seq<JsString>, a: JsString, b: JsString)
    requires EqualIgnoringCase(a, b)
    ensures Decide(allowed, Some(a)).Admitted? == Decide(allowed, Some(b)).Admitted?
  {
    LowerIdentifiesCase(a, b);
  }

  /** The pieces of the variable that name the login up to case and
      surrounding white space. */
  predicate ListedIn(v: JsString, login: JsString) {
    exists k | 0 <= k < |Split(v, ',')| :: EqualIgnoringCase(Trim(Split(v, ',')[k]), login)
  }

  lemma AdmittedIsListed(v: JsString, login: JsString)
    requires v != [] && Lower(login) in ParseAllowList(Some(v))
    ensures ListedIn(v, login)
  {
    var parts := Split(v, ',');
    var allowed := ParseAllowList(Some(v));
    var k :| 0 <= k < |allowed| && allowed[k] == Lower(login);
    LowerIdentifiesCase(Trim(parts[k]), login);
  }

  lemma ListedIsAdmitted(v: JsString, login: JsString)
    requires v != [] && ListedIn(v, login)
    ensures Lower(login) in ParseAllowList(Some(v))
  {
    var parts := Split(v, ',');
    var k :| 0 <= k < |parts| && EqualIgnoringCase(Trim(parts[k]), login);
    LowerIdentifiesCase(Trim(parts[k]), login);
    assert ParseAllowList(Some(v))[k] == Lower(login);
  }

  /** A login is admitted exactly when the variable is unset or empty, or
      one of its comma-separated pieces, with surrounding white space
      removed, equals the login up to letter case. */
  lemma AdmittedExactly(v: Option<JsString>, login: JsString)
    ensures Decide(ParseAllowList(v), Some(login)).Admitted? <==> !Truthy(v) || ListedIn(v.value, login)
  {
    if Truthy(v) {
      if Lower(login) in ParseAllowList(v) {
        AdmittedIsListed(v.value, login);
      }
      if ListedIn(v.value, login) {
        ListedIsAdmitted(v.value, login);
      }
    }
  }

  /** Written as names joined by commas, the variable admits each of the
      names in any letter case, with or without spaces around it. */
  lemma ListedNameAdmitted(names: seq<JsString>, k: int, login: JsString)
    requires names != [] && forall j | 0 <= j < |names| :: ',' !in names[j]
    requires 0 <= k < |names| && EqualIgnoringCase(Trim(names[k]), login)
    ensures Decide(ParseAllowList(Some(Join(names, ','))), Some(login)).Admitted?
  {
    var v := Join(names, ',');
    SplitJoin(names, ',');
    AdmittedExactly(Some(v), login);
    if v != [] {
      assert Split(v, ',')[k] == names[k];
    }
  }
}
