/** The login gate: `requireAuth` in front of every route but the login page, and the
    `POST /login` and `POST /logout` handlers that set and clear the session cookie.
    `generateAuthToken` (a SHA-256 digest) is a parameter `token`: a deterministic function of
    the user name and password about which nothing else is assumed. */
module Auth {
  import opened Wrappers
  import opened Strings
  import opened Responses

  /** `process.env.X || fallback`: an unset or empty variable gives the fallback. */
  function Setting(env: Option<string>, fallback: string): (r: string)
    ensures env.Some? && env.value != "" ==> r == env.value
    ensures env.None? || env.value == "" ==> r == fallback
  {
    if env.Some? && env.value != "" then env.value else fallback
  }

  /** The credentials the server accepts. */
  datatype Credentials = Credentials(username: string, password: string)

  /** `USERNAME` and `PASSWORD` from `AUTH_USERNAME` and `AUTH_PASSWORD`. */
  function Configured(envUsername: Option<string>, envPassword: Option<string>): Credentials {
    Credentials(Setting(envUsername, "admin"), Setting(envPassword, "password"))
  }

  /** `req.path === '/login' || req.path.startsWith('/login/')`. */
  predicate LoginPath(path: string) {
    path == "/login" || StartsWith(path, "/login/")
  }

  /** `requireAuth`: the login page and what lies below it pass; any other request passes when
      the `auth_token` cookie (`None` when absent) is the token of the configured credentials,
      and is sent to the login page otherwise. */
  function RequireAuth(path: string, cookie: Option<string>, config: Credentials,
                       token: (string, string) -> string): (r: Reply)
    ensures r == Next || r == Redirect("/login")
  {
    if LoginPath(path) then Next
    else if cookie == Some(token(config.username, config.password)) then Next
    else Redirect("/login")
  }

  /** The gate passes exactly the login paths and the requests carrying the expected token. */
  lemma {:induction false} RequireAuthSpec(path: string, cookie: Option<string>, config: Credentials,
                                           token: (string, string) -> string)
    ensures RequireAuth(path, cookie, config, token) == Next
        <==> LoginPath(path) || cookie == Some(token(config.username, config.password))
    ensures RequireAuth(path, cookie, config, token) != Next ==> RequireAuth(path, cookie, config, token) == Redirect("/login")
  {
  }

  /** What a handler does to the session cookie. */
  datatype CookieChange = Keep | SetTo(value: string) | Clear

  /** The cookie the browser sends next, after a change. */
  function NextCookie(cookie: Option<string>, change: CookieChange): Option<string> {
    match change
    case Keep => cookie
    case SetTo(v) => Some(v)
    case Clear => None
  }

  /** A handler's reply together with what it does to the cookie. */
  datatype Answer = Answer(change: CookieChange, reply: Reply)

  /** `POST /login`. Each form field is `None` when it is absent or not a single string, since
      strict equality with a string then fails. */
  function Login(username: Option<string>, password: Option<string>, config: Credentials,
                 token: (string, string) -> string): Answer {
    if username == Some(config.username) && password == Some(config.password) then
      Answer(SetTo(token(username.value, password.value)), Redirect("/"))
    else Answer(Keep, LoginPage(Some("Invalid credentials")))
  }

  /** `POST /logout`. */
  function Logout(): Answer {
    Answer(Clear, Redirect("/login"))
  }

  /** A login succeeds exactly with the configured credentials, and then sets the very token
      the gate expects; otherwise the cookie is left alone and the form shows an error. */
  lemma {:induction false} LoginSpec(username: Option<string>, password: Option<string>, config: Credentials,
                                     token: (string, string) -> string)
    ensures Login(username, password, config, token).reply == Redirect("/")
        <==> username == Some(config.username) && password == Some(config.password)
    ensures Login(username, password, config, token).reply == Redirect("/") ==>
      Login(username, password, config, token).change == SetTo(token(config.username, config.password))
    ensures Login(username, password, config, token).reply != Redirect("/") ==>
      Login(username, password, config, token) == Answer(Keep, LoginPage(Some("Invalid credentials")))
  {
  }

  /** After a successful login, every request passes the gate, whatever cookie was sent before. */
  lemma {:induction false} LoginThenPass(before: Option<string>, path: string, config: Credentials,
                                         token: (string, string) -> string)
    ensures var a := Login(Some(config.username), Some(config.password), config, token);
      RequireAuth(path, NextCookie(before, a.change), config, token) == Next
  {
  }

  /** After a logout, every request outside the login page is sent to it. */
  lemma {:induction false} LogoutThenBlocked(before: Option<string>, path: string, config: Credentials,
                                             token: (string, string) -> string)
    requires !LoginPath(path)
    ensures RequireAuth(path, NextCookie(before, Logout().change), config, token) == Redirect("/login")
  {
  }

  /** A failed login changes nothing: the next request is treated as before it. */
  lemma {:induction false} FailedLoginKeepsGate(username: Option<string>, password: Option<string>,
                                                before: Option<string>, path: string, config: Credentials,
                                                token: (string, string) -> string)
    requires !(username == Some(config.username) && password == Some(config.password))
    ensures var a := Login(username, password, config, token);
      RequireAuth(path, NextCookie(before, a.change), config, token) == RequireAuth(path, before, config, token)
  {
  }
}
