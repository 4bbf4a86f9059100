/**
 * LINE login (routes/auth.js): `GET /auth` stores a one-time `state` in the
 * session and sends the browser to LINE; `GET /auth/callback` checks the
 * `state` LINE sends back, consumes it, and logs the LINE user in. The
 * random nonce, the two LINE API calls and the employee query are
 * parameters.
 */
module Auth {
  import opened Wrappers
  import opened Strings
  import opened JsValues
  import opened Http
  import opened Register
  import opened SelectRoute

  /** The two session entries the login uses: `lineAuthState` and `userId`. */
  datatype Session = Session(authState: Option<string>, userId: Option<string>)

  /**
   * The LINE authorization URL; the channel id, the encoded callback URL and
   * the nonce (`crypto.randomBytes(16).toString('hex')`) are given.
   */
  function AuthorizeUrl(channelId: string, encodedCallback: string, nonce: string): (url: string)
    ensures IsInfix("&state=" + nonce + "&", url)
  {
    var before := "https://access.line.me/oauth2/v2.1/authorize?response_type=code&client_id=" + channelId
                  + "&redirect_uri=" + encodedCallback;
    InfixOfConcat(before, "&state=" + nonce + "&", "scope=profile openid");
    before + ("&state=" + nonce + "&") + "scope=profile openid"
  }

  /** `GET /auth`: remember the nonce and redirect to LINE. */
  function StartLogin(s: Session, channelId: string, encodedCallback: string, nonce: string)
    : (out: (Session, Response))
    ensures out.0 == s.(authState := Some(nonce))
    ensures out.1.Redirect? && IsInfix("&state=" + nonce + "&", out.1.location)
  {
    (s.(authState := Some(nonce)), Redirect(AuthorizeUrl(channelId, encodedCallback, nonce)))
  }

  /** `state && stateFromSession && state === stateFromSession`. */
  predicate StateMatches(state: Option<string>, stored: Option<string>) {
    Present(state) && Present(stored) && state == stored
  }

  /** Where a logged-in user is sent: month selection when an employee row has the LINE id, else registration. */
  function LandingPage(userId: string, employees: seq<Record>): (location: string)
    ensures |employees| > 0 <==> StartsWith(location, "/select?")
    ensures |employees| > 0 ==> location == "/select?userId=" + userId
    ensures |employees| == 0 ==> location == "/register?userId=" + userId
  {
    if |employees| > 0 then "/select?userId=" + userId
    else
      var loc := "/register?userId=" + userId;
      assert loc[1] == 'r' && "/select?"[1] == 's';
      loc
  }

  /**
   * `GET /auth/callback`. `lineUser` is the LINE user id the token and
   * profile calls give, `Err` when either fails; `employees` the employee
   * rows with that LINE id, `Err` when the query fails.
   */
  function Callback(s: Session, code: Option<string>, state: Option<string>, error: Option<string>,
                    lineUser: Result<string>, employees: Result<seq<Record>>): (out: (Session, Response))
    // An error from LINE is checked first, then the code; neither touches the session.
    ensures Present(error) ==> out == (s, BadRequest)
    ensures out.1 == BadRequest <==> Present(error) || !Present(code)
    ensures out.1 == BadRequest ==> out.0 == s
    // Past those two checks the stored state is consumed, whatever happens next.
    ensures !Present(error) && Present(code) ==> out.0.authState == None
    ensures out.1 == Forbidden <==> !Present(error) && Present(code) && !StateMatches(state, s.authState)
    ensures out.1 == ServerError <==> !Present(error) && Present(code) && StateMatches(state, s.authState)
                                      && (lineUser.Err? || employees.Err?)
    // Only a complete login changes the session user.
    ensures out.0.userId != s.userId ==> out.1.Redirect?
    ensures out.1.Redirect? <==> !Present(error) && Present(code) && StateMatches(state, s.authState)
                                 && lineUser.Ok? && employees.Ok?
    ensures out.1.Redirect? ==> out.0.userId == Some(lineUser.value)
                                && out.1.location == LandingPage(lineUser.value, employees.value)
  {
    if Present(error) then (s, BadRequest)
    else if !Present(code) then (s, BadRequest)
    else if !StateMatches(state, s.authState) then (s.(authState := None), Forbidden)
    else
      var cleared := s.(authState := None);
      if lineUser.Err? || employees.Err? then (cleared, ServerError)
      else (cleared.(userId := Some(lineUser.value)), Redirect(LandingPage(lineUser.value, employees.value)))
  }

  /** The state `GET /auth` stored lets the callback that carries it through. */
  lemma FreshStatePasses(s: Session, channelId: string, encodedCallback: string, nonce: string,
                         code: string, lineUser: Result<string>, employees: Result<seq<Record>>)
    requires nonce != "" && code != ""
    ensures var s' := StartLogin(s, channelId, encodedCallback, nonce).0;
            Callback(s', Some(code), Some(nonce), None, lineUser, employees).1 !in {BadRequest, Forbidden}
  {
  }

  /**
   * A state passes at most once: after any callback that got past the code
   * check, the same callback is refused with 403.
   */
  lemma StateIsOneShot(s: Session, code: Option<string>, state: Option<string>, error: Option<string>,
                       lineUser: Result<string>, employees: Result<seq<Record>>,
                       lineUser': Result<string>, employees': Result<seq<Record>>)
    requires Callback(s, code, state, error, lineUser, employees).1 != BadRequest
    ensures var s' := Callback(s, code, state, error, lineUser, employees).0;
            Callback(s', code, state, error, lineUser', employees').1 == Forbidden
  {
  }

  /**
   * The pages that send a user on to the month selection name the user
   * `userId`, but the selection page reads `u`: the redirect after login and
   * the one from the registration form both end in 400.
   */
  lemma SelectRedirectsLackU(userId: string, employee: Result<Option<Record>>, sessionUser: Option<string>,
                             salaries: Result<seq<Record>>)
    requires !Contains(userId, "&")
    ensures var location := "/select?userId=" + userId;
            QueryParams(location) == [("userId", userId)]
            && HandleSelect(Get(QueryParams(location), "u"), employee, sessionUser, salaries) == BadRequest
  {
    SelectLocationQuery(userId);
    var ps: Entries<string> := [("userId", userId)];
    assert ps[0].0 != "u";
    assert Get(ps, "u") == None;
  }

  /** The query of the month selection location is the one `userId` parameter. */
  lemma SelectLocationQuery(userId: string)
    requires !Contains(userId, "&")
    ensures QueryParams("/select?userId=" + userId) == [("userId", userId)]
  {
    SelectPathPlain();
    UserIdNamePlain();
    OneParameter("/select", "userId", userId);
    SelectPrefix();
    assert "/select" + "?" + "userId" + "=" + userId == "/select?userId=" + userId;
  }

  /** The path `/select` holds no `?`. */
  lemma SelectPathPlain()
    ensures !Contains("/select", "?")
  {
    CharsWithout("/select", '?');
  }

  /** The parameter name `userId` holds neither `=` nor `&`. */
  lemma UserIdNamePlain()
    ensures !Contains("userId", "=") && !Contains("userId", "&")
  {
    CharsWithout("userId", '=');
    CharsWithout("userId", '&');
  }

  /** The month selection location, piece by piece. */
  lemma SelectPrefix()
    ensures "/select" + "?" + "userId" + "=" == "/select?userId="
  {
  }

  /** The login redirect of a registered user and the registration page's redirect are both that location. */
  lemma LoginAndRegisterUseTheSameLocation(userId: string, employees: seq<Record>, file: string)
    requires |employees| > 0 && userId != ""
    requires RegisterGet(Some(userId), Some(file)).AlreadyListed?
    ensures LandingPage(userId, employees) == RegisterGet(Some(userId), Some(file)).location
  {
  }
}
