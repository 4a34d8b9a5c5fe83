/** The handlers of the account routes: registration, the end of the login
    chain, and logout. Password checks and session persistence belong to the
    credential subsystem and arrive as answers in `Env`. */
module UserRoutes {
  import opened Base
  import opened ExpressErrors
  import opened Models
  import opened Context
  import opened Middleware

  const RegisterPath: string := "/register"
  const Welcome: string := "Successfully created a new user! Welcome to RestoFind!"
  const WelcomeBack: string := "Successfully logged you in! Welcome back to RestoFind!"
  const LoggedOut: string := "Successfully logged you out!"

  /** POST `/register`: a refused registration flashes the reason and goes
      back to the form with the session's user unchanged; a registered user
      is logged in (a login error is forwarded) and sent to the index. */
  function Register(db: Db, env: Env, c: Ctx): (r: Reply)
    ensures r.db == db
    ensures env.register.RegisterFailed? ==>
      r == Replied(db, FlashError(c, env.register.message), RedirectTo(RegisterPath), [])
    ensures env.register.Registered? && env.loginError.Some? ==> r == Raised(db, c, env.loginError.value)
    ensures env.register.Registered? && env.loginError.None? ==>
      && r.Replied? && r.response == RedirectTo(IndexPath)
      && r.ctx.session == Session(Some(env.register.user), None, Flash([Welcome], []))
  {
    match env.register
    case RegisterFailed(m) => Replied(db, FlashError(c, m), RedirectTo(RegisterPath), [])
    case Registered(u) =>
      match env.loginError
      case Some(e) => Raised(db, c, e)
      case None => Replied(db, FlashSuccess(c.(session := FreshSession(Some(u))), Welcome), RedirectTo(IndexPath), [])
  }

  /** Where a successful login goes: the path the login gate recorded and
      `store_return_to` carried over, else the index. */
  function AfterLogin(returnTo: Option<string>): (p: string)
    ensures Truthy(returnTo) ==> p == returnTo.value
    ensures !Truthy(returnTo) ==> p == IndexPath
  {
    if Truthy(returnTo) then returnTo.value else IndexPath
  }

  /** POST `/login` after authentication succeeded: the user the chain
      logged in stays, the welcome-back message is flashed, and the client is
      sent back to the recorded url when there is one, else to the index. */
  function LoggedIn(db: Db, c: Ctx): (r: Reply)
    ensures r.Replied? && r.db == db && r.log == []
    ensures r.ctx.session.user == c.session.user && r.ctx.req == c.req && r.ctx.locals == c.locals
    ensures r.ctx.session.flash == Flash(c.session.flash.success + [WelcomeBack], c.session.flash.error)
    ensures Truthy(c.locals.returnTo) ==> r.response == RedirectTo(c.locals.returnTo.value)
    ensures !Truthy(c.locals.returnTo) ==> r.response == RedirectTo(IndexPath)
  {
    Replied(db, FlashSuccess(c, WelcomeBack), RedirectTo(AfterLogin(c.locals.returnTo)), [])
  }

  /** GET `/logout`: ends the session and goes to the index, or forwards the
      logout error. */
  function Logout(db: Db, env: Env, c: Ctx): (r: Reply)
    ensures env.logoutError.Some? ==> r == Raised(db, c, env.logoutError.value)
    ensures env.logoutError.None? ==>
      && r.Replied? && r.db == db && r.response == RedirectTo(IndexPath) && r.log == []
      && r.ctx.session == Session(None, None, Flash([LoggedOut], []))
  {
    match env.logoutError
    case Some(e) => Raised(db, c, e)
    case None => Replied(db, FlashSuccess(c.(session := FreshSession(None)), LoggedOut), RedirectTo(IndexPath), [])
  }
}
