/** `POST /api/auth` (sign in with the shared secret) and `DELETE /api/auth` (sign out). */
module AuthRoute {
  import opened Wrappers
  import opened Auth

  /** The JSON reply: its HTTP status and its `success` flag. */
  datatype AuthReply = AuthReply(status: int, success: bool)

  method Login(jar: CookieJar, password: Option<string>, secret: Option<string>) returns (reply: AuthReply)
    modifies jar
    ensures VerifyPassword(password, secret) ==>
      reply == AuthReply(200, true) && jar.cookies == WithAuthCookie(old(jar.cookies))
    ensures !VerifyPassword(password, secret) ==>
      reply == AuthReply(401, false) && jar.cookies == old(jar.cookies)
    ensures jar.IsAuthenticated() <==> VerifyPassword(password, secret) || old(jar.IsAuthenticated())
  {
    if VerifyPassword(password, secret) {
      jar.SetAuthCookie();
      return AuthReply(200, true);
    }
    reply := AuthReply(401, false);
  }

  method Logout(jar: CookieJar) returns (reply: AuthReply)
    modifies jar
    ensures reply == AuthReply(200, true)
    ensures jar.cookies == WithoutAuthCookie(old(jar.cookies))
    ensures !jar.IsAuthenticated()
  {
    jar.ClearAuthCookie();
    reply := AuthReply(200, true);
  }

  /** Whatever the prior cookies and whatever password was tried, signing in
      and then signing out leaves the browser signed out. */
  method LoginThenLogout(jar: CookieJar, password: Option<string>, secret: Option<string>)
    modifies jar
    ensures !jar.IsAuthenticated()
  {
    var _ := Login(jar, password, secret);
    var _ := Logout(jar);
  }
}
