/** The single-password authentication of src/app/api/auth: a write-once
    password setup, login against the stored hash, and a status report.
    Hashing and verification are the library's (`hashPassword`,
    `verifyPassword`), and so is the token that createSession signs
    (`token`). The request body's `password` is None when it is absent. */
module Auth {
  import opened Records
  import opened Session
  import opened Store

  /** The settings key of the stored hash. */
  const PasswordKey := "password_hash"

  /** The shortest password setup accepts. */
  const MinPasswordLength := 4

  /** What a request leaves behind: the response, the settings table and
      the session cookie. */
  datatype Outcome = Outcome(response: Response, settings: map<string, string>, session: Option<string>)

  /** The password check of setup: present, non-empty and long enough. */
  predicate AcceptablePassword(password: Option<string>) {
    Truthy(password) && |password.value| >= MinPasswordLength
  }

  // ---- POST /api/auth/setup ----

  /** Setup's decision: refused once a hash is stored, refused for a short
      password, otherwise the hash is stored and a session issued. */
  function SetupOutcome(settings: map<string, string>, session: Option<string>, password: Option<string>,
                        hashPassword: string -> string, token: string): (o: Outcome)
    ensures o.response.Ok() <==> PasswordKey !in settings && AcceptablePassword(password)
    ensures PasswordKey in settings ==> o.response == Response(400, Error("Password already set"))
    ensures PasswordKey !in settings && !AcceptablePassword(password) ==>
      o.response == Response(400, Error("Password must be at least 4 characters"))
    ensures !o.response.Ok() ==> o.settings == settings && o.session == session
    ensures o.response.Ok() ==>
      && o.response == Response(200, Success)
      && o.settings == settings[PasswordKey := hashPassword(password.value)]
      && o.session == Some(token)
  {
    if PasswordKey in settings then
      Outcome(Response(400, Error("Password already set")), settings, session)
    else if !Truthy(password) || |password.value| < MinPasswordLength then
      Outcome(Response(400, Error("Password must be at least 4 characters")), settings, session)
    else
      Outcome(Response(200, Success), settings[PasswordKey := hashPassword(password.value)], Some(token))
  }

  /** The route handler: reads and writes the settings table and the
      session cookie as SetupOutcome says. */
  method Setup(settings: SettingsTable, jar: CookieJar, hashPassword: string -> string,
               password: Option<string>, token: string)
    returns (resp: Response)
    modifies settings, jar
    ensures var o := SetupOutcome(old(settings.entries), old(jar.session), password, hashPassword, token);
      resp == o.response && settings.entries == o.settings && jar.session == o.session
  {
    if PasswordKey in settings.entries {
      return Response(400, Error("Password already set"));
    }
    if !Truthy(password) || |password.value| < MinPasswordLength {
      return Response(400, Error("Password must be at least 4 characters"));
    }
    var hash := hashPassword(password.value);
    settings.entries := settings.entries[PasswordKey := hash];
    jar.session := Some(token);
    resp := Response(200, Success);
  }

  // ---- POST /api/auth/login ----

  /** Login's decision: refused before setup, refused for a password that
      does not verify against the stored hash, otherwise a session is
      issued. The settings are never written. */
  function LoginOutcome(settings: map<string, string>, session: Option<string>, password: Option<string>,
                        verifyPassword: (Option<string>, string) -> bool, token: string): (o: Outcome)
    ensures o.settings == settings
    ensures o.response.Ok() <==> PasswordKey in settings && verifyPassword(password, settings[PasswordKey])
    ensures PasswordKey !in settings ==> o.response == Response(400, Error("Password not set up yet"))
    ensures PasswordKey in settings && !verifyPassword(password, settings[PasswordKey]) ==>
      o.response == Response(401, Error("Wrong password"))
    ensures !o.response.Ok() ==> o.session == session
    ensures o.response.Ok() ==> o.response == Response(200, Success) && o.session == Some(token)
  {
    if PasswordKey !in settings then
      Outcome(Response(400, Error("Password not set up yet")), settings, session)
    else if !verifyPassword(password, settings[PasswordKey]) then
      Outcome(Response(401, Error("Wrong password")), settings, session)
    else
      Outcome(Response(200, Success), settings, Some(token))
  }

  /** The route handler: only the session cookie can change. */
  method Login(settings: SettingsTable, jar: CookieJar, verifyPassword: (Option<string>, string) -> bool,
               password: Option<string>, token: string)
    returns (resp: Response)
    modifies jar
    ensures var o := LoginOutcome(settings.entries, old(jar.session), password, verifyPassword, token);
      resp == o.response && jar.session == o.session
  {
    if PasswordKey !in settings.entries {
      return Response(400, Error("Password not set up yet"));
    }
    var valid := verifyPassword(password, settings.entries[PasswordKey]);
    if !valid {
      return Response(401, Error("Wrong password"));
    }
    jar.session := Some(token);
    resp := Response(200, Success);
  }

  // ---- GET /api/auth/status ----

  /** The status report: always 200, whether a password is set up and
      whether the request's session verifies. */
  function Status(settings: map<string, string>, session: Option<string>, jwtVerify: string -> bool): (resp: Response)
    ensures resp.status == 200 && resp.body.StatusJson?
    ensures resp.body.hasPassword <==> PasswordKey in settings
    ensures resp.body.isAuthenticated <==> SessionVerified(session, jwtVerify)
  {
    Response(200, StatusJson(PasswordKey in settings, SessionVerified(session, jwtVerify)))
  }

  // ---- Sequences of requests ----

  /** One request to the auth routes, with what the libraries give it:
      the password in the body and the token createSession would sign. */
  datatype Request =
    | SetupRequest(password: Option<string>, token: string)
    | LoginRequest(password: Option<string>, token: string)
    | StatusRequest

  /** The settings and session after one request, and its response. */
  function Step(settings: map<string, string>, session: Option<string>, r: Request,
                hashPassword: string -> string, verifyPassword: (Option<string>, string) -> bool,
                jwtVerify: string -> bool): Outcome
  {
    match r
    case SetupRequest(p, t) => SetupOutcome(settings, session, p, hashPassword, t)
    case LoginRequest(p, t) => LoginOutcome(settings, session, p, verifyPassword, t)
    case StatusRequest => Outcome(Status(settings, session, jwtVerify), settings, session)
  }

  /** The settings after a sequence of requests, served one after another. */
  function Run(settings: map<string, string>, session: Option<string>, rs: seq<Request>,
               hashPassword: string -> string, verifyPassword: (Option<string>, string) -> bool,
               jwtVerify: string -> bool): map<string, string>
    decreases |rs|
  {
    if |rs| == 0 then settings
    else
      var o := Step(settings, session, rs[0], hashPassword, verifyPassword, jwtVerify);
      Run(o.settings, o.session, rs[1..], hashPassword, verifyPassword, jwtVerify)
  }

  /** Write-once: once a hash is stored, no request of any kind changes
      the settings, so the stored hash stays the one first written. */
  lemma {:induction false} WriteOnce(settings: map<string, string>, session: Option<string>, rs: seq<Request>,
                                     hashPassword: string -> string,
                                     verifyPassword: (Option<string>, string) -> bool, jwtVerify: string -> bool)
    requires PasswordKey in settings
    ensures Run(settings, session, rs, hashPassword, verifyPassword, jwtVerify) == settings
    decreases |rs|
  {
    if |rs| > 0 {
      var o := Step(settings, session, rs[0], hashPassword, verifyPassword, jwtVerify);
      assert o.settings == settings;
      WriteOnce(settings, o.session, rs[1..], hashPassword, verifyPassword, jwtVerify);
    }
  }

  /** Once a hash is stored, every setup is refused. */
  lemma SetupRefusedAfterSuccess(settings: map<string, string>, session: Option<string>, p: Option<string>,
                                 q: Option<string>, hashPassword: string -> string, t: string, u: string)
    requires SetupOutcome(settings, session, p, hashPassword, t).response.Ok()
    ensures var o := SetupOutcome(settings, session, p, hashPassword, t);
      SetupOutcome(o.settings, o.session, q, hashPassword, u).response == Response(400, Error("Password already set"))
  {
  }

  /** After a successful setup with p, logging in with p succeeds, provided
      the library verifies a password against its own hash. */
  lemma SetupThenLogin(settings: map<string, string>, session: Option<string>, p: string,
                       hashPassword: string -> string, verifyPassword: (Option<string>, string) -> bool,
                       t: string, u: string)
    requires verifyPassword(Some(p), hashPassword(p))
    requires SetupOutcome(settings, session, Some(p), hashPassword, t).response.Ok()
    ensures var o := SetupOutcome(settings, session, Some(p), hashPassword, t);
      LoginOutcome(o.settings, o.session, Some(p), verifyPassword, u).response.Ok()
  {
  }

  /** A successful setup or login leaves the caller authenticated, provided
      the issued token verifies. */
  lemma SuccessAuthenticates(settings: map<string, string>, session: Option<string>, r: Request,
                             hashPassword: string -> string, verifyPassword: (Option<string>, string) -> bool,
                             jwtVerify: string -> bool)
    requires !r.StatusRequest? && r.token != "" && jwtVerify(r.token)
    requires Step(settings, session, r, hashPassword, verifyPassword, jwtVerify).response.Ok()
    ensures var o := Step(settings, session, r, hashPassword, verifyPassword, jwtVerify);
      Status(o.settings, o.session, jwtVerify) == Response(200, StatusJson(true, true))
  {
  }
}
