/** The application: the per-request prelude, the routers in mounting order,
    each route's guard chain and handler, the catch-all 404 and the terminal
    error handler. */
module App {
  import opened Base
  import opened ExpressErrors
  import opened ValidationSchemas
  import opened Models
  import opened Context
  import opened Middleware
  import RestaurantRoutes
  import ReviewRoutes
  import UserRoutes

  datatype Route =
    | RestaurantIndex
    | NewRestaurant
    | CreateRestaurant
    | ShowRestaurant(id: Id)
    | EditRestaurant(id: Id)
    | UpdateRestaurant(id: Id)
    | DeleteRestaurant(id: Id)
    | CreateReview(id: Id)
    | DeleteReview(id: Id, reviewId: Id)
    | RegisterForm
    | Register
    | LoginForm
    | Login
    | Logout
    | NotFound

  /** The user router, then the catch-all. */
  function MatchUser(m: Method, p: seq<string>): Route
  {
    if p == ["register"] && m == Get then RegisterForm
    else if p == ["register"] && m == Post then Register
    else if p == ["login"] && m == Get then LoginForm
    else if p == ["login"] && m == Post then Login
    else if p == ["logout"] && m == Get then Logout
    else NotFound
  }

  /** Routes a request: the restaurant router (its routes in declaration
      order, so `/new` is tried before `/:id`), then the review router
      mounted at `/restaurants/:id/reviews`, then the user router, then the
      catch-all. A HEAD request is served by the route declared for GET.
      A `:id` or `:review_id` parameter never binds an empty segment. */
  function Match(m: Method, p: seq<string>): (r: Route)
    ensures !r.NotFound? ==> p == PathOf(r) && (m == MethodOf(r) || (m == Head && MethodOf(r) == Get))
    ensures !r.NotFound? ==> Bindable(r)
  {
    var m := if m == Head then Get else m;
    if |p| >= 1 && p[0] == "restaurants" then
      if |p| == 1 && m == Get then RestaurantIndex
      else if |p| == 2 && p[1] == "new" && m == Get then NewRestaurant
      else if |p| == 1 && m == Post then CreateRestaurant
      else if |p| == 2 && p[1] != "" && m == Get then ShowRestaurant(p[1])
      else if |p| == 3 && p[1] != "" && p[2] == "edit" && m == Get then EditRestaurant(p[1])
      else if |p| == 2 && p[1] != "" && m == Put then UpdateRestaurant(p[1])
      else if |p| == 2 && p[1] != "" && m == Delete then DeleteRestaurant(p[1])
      else if |p| == 3 && p[1] != "" && p[2] == "reviews" && m == Post then CreateReview(p[1])
      else if |p| == 4 && p[1] != "" && p[2] == "reviews" && p[3] != "" && m == Delete then DeleteReview(p[1], p[3])
      else MatchUser(m, p)
    else MatchUser(m, p)
  }

  /** An empty `:id` or `:review_id` segment matches no restaurant or
      review route (and no user route), so the request reaches the
      catch-all. */
  lemma EmptyIdNotFound(m: Method, p: seq<string>)
    requires |p| >= 2 && p[0] == "restaurants" && (p[1] == "" || (|p| == 4 && p[3] == ""))
    ensures Match(m, p).NotFound?
  {
  }

  /** HEAD is answered by whatever answers GET on the same path. */
  lemma HeadServedAsGet(p: seq<string>)
    ensures Match(Head, p) == Match(Get, p)
  {
  }

  /** Every parameter a route binds is a non-empty segment, as
      `[^\/]+?`, Express's pattern for a parameter, demands. */
  predicate Bindable(r: Route)
  {
    match r
    case ShowRestaurant(id) => id != ""
    case EditRestaurant(id) => id != ""
    case UpdateRestaurant(id) => id != ""
    case DeleteRestaurant(id) => id != ""
    case CreateReview(id) => id != ""
    case DeleteReview(id, rid) => id != "" && rid != ""
    case _ => true
  }

  /** The method and path segments a route is declared for. */
  function MethodOf(r: Route): Method
  {
    match r
    case CreateRestaurant | CreateReview(_) | Register | Login => Post
    case UpdateRestaurant(_) => Put
    case DeleteRestaurant(_) | DeleteReview(_, _) => Delete
    case _ => Get
  }

  function PathOf(r: Route): seq<string>
  {
    match r
    case RestaurantIndex | CreateRestaurant => ["restaurants"]
    case NewRestaurant => ["restaurants", "new"]
    case ShowRestaurant(id) => ["restaurants", id]
    case EditRestaurant(id) => ["restaurants", id, "edit"]
    case UpdateRestaurant(id) => ["restaurants", id]
    case DeleteRestaurant(id) => ["restaurants", id]
    case CreateReview(id) => ["restaurants", id, "reviews"]
    case DeleteReview(id, rid) => ["restaurants", id, "reviews", rid]
    case RegisterForm | Register => ["register"]
    case LoginForm | Login => ["login"]
    case Logout => ["logout"]
    case NotFound => []
  }

  /** Every declared route is reached by its own method and path, except
      that `/restaurants/new` is taken by the form before `/:id` sees it. */
  lemma MatchPathOf(r: Route)
    requires !r.NotFound? && r != ShowRestaurant("new") && Bindable(r)
    ensures Match(MethodOf(r), PathOf(r)) == r
    ensures MethodOf(r) == Get ==> Match(Head, PathOf(r)) == r
  {
  }

  /** The catch-all is reached only by requests no declared route matches. */
  lemma NotFoundOnlyWhenUnmatched(m: Method, p: seq<string>, r: Route)
    requires Match(m, p).NotFound?
    requires !r.NotFound? && Bindable(r)
    ensures MethodOf(r) != m || PathOf(r) != p
  {
    if MethodOf(r) == m && PathOf(r) == p && r != ShowRestaurant("new") {
      MatchPathOf(r);
    }
  }

  /** The new-restaurant form's original url keeps its mount prefix. */
  lemma NewFormUrl(req: Request)
    requires Match(req.verb, req.path) == NewRestaurant
    ensures OriginalUrl(req) == "/restaurants/new" + req.query
  {
    assert req.path == ["restaurants", "new"];
    assert Join(req.path, "/") == "restaurants" + "/" + "new";
    assert OriginalUrl(req) == "/" + "restaurants/new" + req.query;
    assert "/" + "restaurants/new" == "/restaurants/new";
  }

  /** `req.params` as the matched route binds them. */
  function ParamsOf(r: Route): Params
  {
    match r
    case ShowRestaurant(id) => Params(id, "")
    case EditRestaurant(id) => Params(id, "")
    case UpdateRestaurant(id) => Params(id, "")
    case DeleteRestaurant(id) => Params(id, "")
    case CreateReview(id) => Params(id, "")
    case DeleteReview(id, rid) => Params(id, rid)
    case _ => Params("", "")
  }

  /** The guards each route runs before its handler, in order. */
  function Chain(r: Route): (gs: seq<Guard>)
    ensures Ordered(gs)
    ensures IsRestaurantAuthorGuard in gs || IsReviewAuthorGuard in gs ==>
      |gs| >= 3 && gs[0] == IsLoggedInGuard && gs[1] == IsExistingRestaurantGuard
  {
    match r
    case NewRestaurant => [IsLoggedInGuard]
    case CreateRestaurant => [IsLoggedInGuard, UploadGuard, ValidateRestaurantGuard]
    case ShowRestaurant(_) => [IsExistingRestaurantGuard]
    case EditRestaurant(_) => [IsLoggedInGuard, IsExistingRestaurantGuard, IsRestaurantAuthorGuard]
    case UpdateRestaurant(_) =>
      [IsLoggedInGuard, IsExistingRestaurantGuard, IsRestaurantAuthorGuard, ValidateRestaurantGuard]
    case DeleteRestaurant(_) => [IsLoggedInGuard, IsExistingRestaurantGuard, IsRestaurantAuthorGuard]
    case CreateReview(_) => [IsLoggedInGuard, IsExistingRestaurantGuard, ValidateReviewGuard]
    case DeleteReview(_, _) =>
      [IsLoggedInGuard, IsExistingRestaurantGuard, IsExistingReviewGuard, IsReviewAuthorGuard]
    case Login => [StoreReturnToGuard, AuthenticateGuard]
    case _ => []
  }

  /** Every guard of the route's chain has established its fact. */
  predicate Passed(r: Route, db: Db, env: Env, c: Ctx)
  {
    forall i | 0 <= i < |Chain(r)| :: Holds(Chain(r)[i], db, env, c)
  }

  // ------------------------------------------------------------- prelude

  /** The middleware every request passes first: both flash categories are
      drained into the locals and the current user is exposed. */
  function Prelude(c: Ctx): (c': Ctx)
    ensures c'.locals.success == c.session.flash.success && c'.locals.error == c.session.flash.error
    ensures c'.locals.currentUser == c.session.user
    ensures c'.session == c.session.(flash := NoFlash)
    ensures c'.req == c.req
    ensures c'.locals.restaurant == c.locals.restaurant && c'.locals.review == c.locals.review
    ensures c'.locals.returnTo == c.locals.returnTo
  {
    Ctx(c.req, c.session.(flash := NoFlash),
        c.locals.(success := c.session.flash.success, error := c.session.flash.error, currentUser := c.session.user))
  }

  // ----------------------------------------------------------- error handler

  const DefaultStatus: int := 500
  const DefaultMessage: string := "Oh No, Something Went Wrong!"

  /** The catch-all: `next(new ExpressError(404, "Page Not Found!"))`. */
  const PageNotFound: Error := ExpressError(404, "Page Not Found!")

  /** The terminal error handler: the error's status (500 when it has none)
      becomes the response status, and a missing or empty message is
      replaced by the apology text. */
  function ErrorResponse(e: Error): (r: Response)
    ensures r.ErrorPage? && r.message != ""
    ensures e.statusCode.Some? ==> r.status == e.statusCode.value
    ensures e.statusCode.None? ==> r.status == DefaultStatus
    ensures e.message != "" ==> r.message == e.message
    ensures e.message == "" ==> r.message == DefaultMessage
  {
    var status := match e.statusCode case Some(s) => s case None => DefaultStatus;
    ErrorPage(status, if e.message == "" then DefaultMessage else e.message)
  }

  // ------------------------------------------------------------- a request

  /** What a request leaves behind: the store, the session the client keeps,
      the response, and the calls made to the image host. */
  datatype Outcome = Outcome(db: Db, session: Session, response: Response, log: seq<Effect>)

  /** The routes whose handlers write to the store. */
  predicate Writes(r: Route)
  {
    r.CreateRestaurant? || r.UpdateRestaurant? || r.DeleteRestaurant? || r.CreateReview? || r.DeleteReview?
  }

  /** The handler at the end of a route, run once its chain has passed. Only
      the five writing routes change the store, only the restaurant delete
      calls the image host, and no handler answers with an error page of its
      own: errors are forwarded. */
  function Handle(r: Route, db: Db, env: Env, c: Ctx): (reply: Reply)
    requires Passed(r, db, env, c)
    ensures !Writes(r) ==> reply.db == db
    ensures reply.Replied? && !r.DeleteRestaurant? ==> reply.log == []
    ensures reply.Replied? ==> !reply.response.ErrorPage?
  {
    match r
    case RestaurantIndex => RestaurantRoutes.Index(db, c)
    case NewRestaurant => Page(db, c, "restaurants/new", NoData)
    case CreateRestaurant =>
      assert Holds(Chain(r)[0], db, env, c) && Holds(Chain(r)[2], db, env, c);
      RestaurantRoutes.Create(db, env, c)
    case ShowRestaurant(_) =>
      assert Holds(Chain(r)[0], db, env, c);
      RestaurantRoutes.Show(db, c, "restaurants/show")
    case EditRestaurant(_) =>
      assert Holds(Chain(r)[1], db, env, c);
      RestaurantRoutes.Show(db, c, "restaurants/edit")
    case UpdateRestaurant(_) =>
      assert Holds(Chain(r)[3], db, env, c);
      RestaurantRoutes.Update(db, c)
    case DeleteRestaurant(_) => RestaurantRoutes.Delete(db, c)
    case CreateReview(_) =>
      assert Holds(Chain(r)[0], db, env, c) && Holds(Chain(r)[1], db, env, c) && Holds(Chain(r)[2], db, env, c);
      ReviewRoutes.Create(db, env, c)
    case DeleteReview(_, _) => ReviewRoutes.Delete(db, c)
    case RegisterForm => Page(db, c, "users/register", NoData)
    case Register => UserRoutes.Register(db, env, c)
    case LoginForm => Page(db, c, "users/login", NoData)
    case Login => UserRoutes.LoggedIn(db, c)
    case Logout => UserRoutes.Logout(db, env, c)
    case NotFound => Raised(db, c, PageNotFound)
  }

  /** The context the route's chain starts from; `req.files` is undefined
      until the upload middleware sets it. */
  function Start(req: Request, session: Session): Ctx
  {
    Prelude(Ctx(req.(params := ParamsOf(Match(req.verb, req.path)), files := None), session, NoLocals))
  }

  /** One request, end to end. A stopped chain writes nothing; an error,
      whether raised by a guard or by the handler, goes through the terminal
      handler. */
  function HandleRequest(db: Db, env: Env, req: Request, session: Session): (o: Outcome)
    ensures Match(req.verb, req.path).NotFound? ==>
      o == Outcome(db, session.(flash := NoFlash), ErrorPage(404, "Page Not Found!"), [])
    ensures !Writes(Match(req.verb, req.path)) ==> o.db == db
    ensures !Match(req.verb, req.path).DeleteRestaurant? ==> o.log == []
    ensures o.response.ErrorPage? ==> o.response.message != "" && o.log == []
  {
    var r := Match(req.verb, req.path);
    var c := Start(req, session);
    match RunChain(Chain(r), db, env, c)
    case Redirect(c', p) => Outcome(db, c'.session, RedirectTo(p), [])
    case Fail(c', e) => Outcome(db, c'.session, ErrorResponse(e), [])
    case Next(c') =>
      ChainEstablishes(Chain(r), db, env, c);
      match Handle(r, db, env, c')
      case Replied(db', c'', response, log) => Outcome(db', c''.session, response, log)
      case Raised(db', c'', e) => Outcome(db', c''.session, ErrorResponse(e), [])
  }
}
