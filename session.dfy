/** The session cookie of src/lib/auth.ts. Signing and verifying the token
    is the library's business: `jwtVerify` stands for "the signature and
    the expiry check out". */
module Session {
  import opened Records

  /** Name of the session cookie. */
  const CookieName := "nulis-session"

  /** verifySession: the request carries a non-empty session token that
      verifies; every failure reads as "not authenticated". */
  function SessionVerified(cookie: Option<string>, jwtVerify: string -> bool): (b: bool)
    ensures b ==> cookie.Some? && cookie.value != ""
    ensures cookie.Some? && cookie.value != "" ==> (b <==> jwtVerify(cookie.value))
  {
    Truthy(cookie) && jwtVerify(cookie.value)
  }

  /** The browser's cookie store, as far as the session cookie goes. */
  class CookieJar {
    var session: Option<string>

    constructor ()
      ensures session == None
    {
      session := None;
    }
  }
}
