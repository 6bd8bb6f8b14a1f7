/** The session gate: one configured shared secret, and a cookie that marks
    the browser as signed in. */
module Auth {
  import opened Wrappers

  const AuthCookieName: string := "pulmonary_rehab_auth"
  const AuthenticatedMarker: string := "authenticated"

  /** `password === process.env.AUTH_PASSWORD`; `None` is `undefined` on either side. */
  function VerifyPassword(password: Option<string>, secret: Option<string>): bool
  {
    password == secret
  }

  /** Only the exact secret is accepted. */
  lemma VerifyPasswordExact(p: string, secret: string)
    ensures VerifyPassword(Some(p), Some(secret)) <==> p == secret
  {
  }

  /** A proper prefix or a proper suffix of the secret, the empty string
      included, is refused. */
  lemma VerifyPasswordRefusesPartialSecret(secret: string, k: nat)
    requires k < |secret|
    ensures !VerifyPassword(Some(secret[..k]), Some(secret))
    ensures !VerifyPassword(Some(secret[k + 1..]), Some(secret))
  {
    assert |secret[..k]| != |secret| && |secret[k + 1..]| != |secret|;
  }

  /** With no secret configured, only a request without a password matches. */
  lemma VerifyPasswordWithoutSecret(password: Option<string>)
    ensures VerifyPassword(password, None) <==> password.None?
  {
  }

  /** The browser's cookies by name. */
  type Cookies = map<string, string>

  /** `isAuthenticated`: the auth cookie is present and holds exactly
      'authenticated', that is, the jar is already what signing in makes it. */
  predicate Authenticated(jar: Cookies): (r: bool)
    ensures r <==> jar == WithAuthCookie(jar)
  {
    AuthCookieName in jar && jar[AuthCookieName] == AuthenticatedMarker
  }

  function WithAuthCookie(jar: Cookies): Cookies
  {
    jar[AuthCookieName := AuthenticatedMarker]
  }

  function WithoutAuthCookie(jar: Cookies): Cookies
  {
    jar - {AuthCookieName}
  }

  /** Setting the cookie signs in and touches no other cookie. */
  lemma SetAuthCookieEffect(jar: Cookies)
    ensures Authenticated(WithAuthCookie(jar))
    ensures forall k :: k != AuthCookieName ==>
      (k in WithAuthCookie(jar) <==> k in jar) && (k in jar ==> WithAuthCookie(jar)[k] == jar[k])
  {
  }

  /** Clearing the cookie signs out, touches no other cookie, and is idempotent. */
  lemma ClearAuthCookieEffect(jar: Cookies)
    ensures !Authenticated(WithoutAuthCookie(jar))
    ensures forall k :: k != AuthCookieName ==>
      (k in WithoutAuthCookie(jar) <==> k in jar) && (k in jar ==> WithoutAuthCookie(jar)[k] == jar[k])
    ensures WithoutAuthCookie(WithoutAuthCookie(jar)) == WithoutAuthCookie(jar)
  {
  }

  /** The cookie store of the browser, as the server's `cookies()` sees it. */
  class CookieJar {
    var cookies: Cookies

    constructor (initial: Cookies)
      ensures cookies == initial
    {
      cookies := initial;
    }

    /** `isAuthenticated()` on this request's cookies. */
    predicate IsAuthenticated(): (r: bool)
      reads this
      ensures r <==> AuthCookieName in cookies && cookies[AuthCookieName] == AuthenticatedMarker
      ensures r <==> cookies == WithAuthCookie(cookies)
    {
      Authenticated(cookies)
    }

    method SetAuthCookie()
      modifies this
      ensures cookies == WithAuthCookie(old(cookies))
      ensures IsAuthenticated()
    {
      cookies := cookies[AuthCookieName := AuthenticatedMarker];
    }

    method ClearAuthCookie()
      modifies this
      ensures cookies == WithoutAuthCookie(old(cookies))
      ensures !IsAuthenticated()
    {
      cookies := cookies - {AuthCookieName};
    }
  }
}
