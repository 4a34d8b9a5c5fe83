/** The per-request world a guard sees: the request, the session that
    persists across requests, the locals that live for one request, and the
    answers of the collaborators that are not modelled (upload, password
    check, registration, login and logout callbacks, id generation). */
module Context {
  import opened Base
  import opened ExpressErrors
  import opened ValidationSchemas
  import opened Models

  /** One-shot messages by category. */
  datatype Flash = Flash(success: seq<string>, error: seq<string>)

  const NoFlash: Flash := Flash([], [])

  /** `req.session` with the authenticated user Passport keeps in it. */
  datatype Session = Session(user: Option<User>, returnTo: Option<string>, flash: Flash)

  /** A session just created by Passport for `user`, as after login. */
  function FreshSession(user: Option<User>): Session
  {
    Session(user, None, NoFlash)
  }

  /** `res.locals`. */
  datatype Locals = Locals(
    success: seq<string>,
    error: seq<string>,
    currentUser: Option<User>,
    restaurant: Option<Restaurant>,
    review: Option<Review>,
    returnTo: Option<string>)

  const NoLocals: Locals := Locals([], [], None, None, None, None)

  /** The effective method, after the `_method` override has been applied.
      OPTIONS, PATCH and the rest are `OtherMethod`. */
  datatype Method = Get | Head | Post | Put | Delete | OtherMethod

  /** A file stored by the upload middleware: its hosted url and file name. */
  datatype UploadedFile = UploadedFile(path: string, filename: string)

  /** Route parameters; "" when the route declares none. */
  datatype Params = Params(id: Id, reviewId: Id)

  datatype Request = Request(
    verb: Method,
    path: seq<string>,
    query: string,
    params: Params,
    body: Value,
    files: Option<seq<UploadedFile>>)

  /** `req.originalUrl`: the full path with its mount prefix, then the query. */
  function OriginalUrl(req: Request): (u: string)
    ensures |u| > 0 && u[0] == '/'
    ensures req.path != [] ==> u == "/" + Join(req.path, "/") + req.query
    ensures req.path == [] ==> u == "/" + req.query
  {
    PathText(req.path) + req.query
  }

  /** The path as written in the url: each segment after a slash, and the
      bare root for no segments. */
  function PathText(segments: seq<string>): (t: string)
    ensures |t| > 0 && t[0] == '/'
    ensures segments != [] ==> t == "/" + Join(segments, "/")
  {
    if |segments| == 0 then "/"
    else if |segments| == 1 then "/" + segments[0]
    else "/" + segments[0] + PathText(segments[1..])
  }

  /** What a guard reads and writes. */
  datatype Ctx = Ctx(req: Request, session: Session, locals: Locals)

  /** `req.flash("error", message)`. */
  function FlashError(c: Ctx, message: string): (c': Ctx)
    ensures c'.session.flash.error == c.session.flash.error + [message]
    ensures c'.session.flash.success == c.session.flash.success
    ensures c'.session.user == c.session.user && c'.session.returnTo == c.session.returnTo
    ensures c'.req == c.req && c'.locals == c.locals
  {
    c.(session := c.session.(flash := c.session.flash.(error := c.session.flash.error + [message])))
  }

  /** `req.flash("success", message)`. */
  function FlashSuccess(c: Ctx, message: string): (c': Ctx)
    ensures c'.session.flash.success == c.session.flash.success + [message]
    ensures c'.session.flash.error == c.session.flash.error
    ensures c'.session.user == c.session.user && c'.session.returnTo == c.session.returnTo
    ensures c'.req == c.req && c'.locals == c.locals
  {
    c.(session := c.session.(flash := c.session.flash.(success := c.session.flash.success + [message])))
  }

  /** How a guard ends: `next()`, a redirect, or `next(err)` / a throw. */
  datatype Step = Next(ctx: Ctx) | Redirect(ctx: Ctx, path: string) | Fail(ctx: Ctx, err: Error)

  // ------------------------------------------------------------ collaborators

  /** The upload middleware stores every file or fails; a request that is
      not `multipart/form-data` it passes on without setting `req.files`. */
  datatype UploadResult = Uploaded(files: seq<UploadedFile>) | UploadFailed(err: Error) | NotMultipart

  /** `passport.authenticate("local")`: a user, a rejection with the
      strategy's message, or an error. */
  datatype AuthResult = Authenticated(user: User) | Rejected(message: string) | AuthError(err: Error)

  /** `User.register(user, password)`: the saved user, or the thrown message. */
  datatype RegisterResult = Registered(user: User) | RegisterFailed(message: string)

  /** The answers the collaborators give for this request. `freshId` is the
      ObjectId the store assigns to a document this request creates. */
  datatype Env = Env(
    badIds: set<Id>,
    freshId: Id,
    upload: UploadResult,
    auth: AuthResult,
    register: RegisterResult,
    loginError: Option<Error>,
    logoutError: Option<Error>)

  /** What a view is given: nothing, the restaurants to list, or the one
      restaurant a page is about. */
  datatype ViewData = NoData | Listing(restaurants: set<Restaurant>) | Detail(restaurant: Restaurant)

  /** What a route sends back. */
  datatype Response =
    | RedirectTo(path: string)
    | Render(view: string, data: ViewData)
    | ErrorPage(status: int, message: string)

  /** How a route handler ends: it responds, or it forwards an error after
      whatever writes it already made. */
  datatype Reply =
    | Replied(db: Db, ctx: Ctx, response: Response, log: seq<Effect>)
    | Raised(db: Db, ctx: Ctx, err: Error)

  /** `res.render(view, data)` at the end of a handler that only reads:
      the store, the session and the locals stay as they were, and the image
      host is not called. */
  function Page(db: Db, c: Ctx, view: string, data: ViewData): (r: Reply)
    ensures r.Replied? && r.db == db && r.ctx == c && r.log == []
    ensures r.response.Render? && r.response.view == view && r.response.data == data
  {
    Replied(db, c, Render(view, data), [])
  }
}
