/** The route guard of src/middleware.ts: requests to the canvas need a
    session cookie whose token verifies, others go to the home page. */
module RouteGuard {
  import opened Records
  import opened Session

  /** What the middleware does with a request. */
  datatype Decision = Next | Redirect(location: string)

  /** The paths the middleware runs on. */
  const Matcher: seq<string> := ["/canvas"]

  /** The session token the request carries, if any. */
  function SessionToken(cookies: map<string, string>): (t: Option<string>)
    ensures t.Some? <==> CookieName in cookies
    ensures t.Some? ==> t.value == cookies[CookieName]
  {
    if CookieName in cookies then Some(cookies[CookieName]) else None
  }

  /** middleware: redirect to "/" without a token or with one that does not
      verify, otherwise let the request through. */
  function Middleware(cookies: map<string, string>, verifyToken: string -> bool): (d: Decision)
    ensures d.Redirect? ==> d.location == "/"
    ensures !Truthy(SessionToken(cookies)) ==> d == Redirect("/")
    ensures d == Next <==> SessionVerified(SessionToken(cookies), verifyToken)
  {
    var token := SessionToken(cookies);
    if !Truthy(token) then Redirect("/")
    else if !verifyToken(token.value) then Redirect("/")
    else Next
  }

  /** A request as the framework routes it: the middleware runs only on the
      paths of the matcher. */
  function Route(path: string, cookies: map<string, string>, verifyToken: string -> bool): (d: Decision)
    ensures path !in Matcher ==> d == Next
    ensures path in Matcher ==> d == Middleware(cookies, verifyToken)
  {
    if path in Matcher then Middleware(cookies, verifyToken) else Next
  }

  /** The guard protects exactly "/canvas": that path passes only with a
      verified session, every other path always passes. */
  lemma GuardedPaths(path: string, cookies: map<string, string>, verifyToken: string -> bool)
    ensures Route(path, cookies, verifyToken) == Next <==>
      path != "/canvas" || SessionVerified(SessionToken(cookies), verifyToken)
  {
  }

}
