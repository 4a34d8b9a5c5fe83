/** Properties of whole requests: what each route does to the store, the
    session and the response, stated over all inputs. */
module RequestProperties {
  import opened Base
  import opened ExpressErrors
  import opened ValidationSchemas
  import opened Models
  import opened Context
  import opened Middleware
  import RestaurantRoutes
  import ReviewRoutes
  import UserRoutes
  import opened App

  /** The guards every owner-only restaurant route starts with. */
  const OwnerGuards: seq<Guard> := [IsLoggedInGuard, IsExistingRestaurantGuard, IsRestaurantAuthorGuard]

  /** Each outcome of the owner-only prefix: login redirect, lookup error,
      not-found redirect, permission denial, or a pass with the restaurant
      resolved. */
  lemma OwnerGuardsOutcome(db: Db, env: Env, c: Ctx)
    ensures var s := RunChain(OwnerGuards, db, env, c);
      var id := c.req.params.id;
      && (c.session.user.None? ==> s == IsLoggedIn(c))
      && (c.session.user.Some? && id in env.badIds ==> s == Fail(c, CastError(id, "Restaurant")))
      && (c.session.user.Some? && id !in env.badIds && id !in db.restaurants ==>
            s == Redirect(FlashError(c, RestaurantNotFound), IndexPath))
      && (c.session.user.Some? && id !in env.badIds && id in db.restaurants ==>
            var c1 := c.(locals := c.locals.(restaurant := Some(db.restaurants[id])));
            if db.restaurants[id].author == c.session.user.value.id then s == Next(c1)
            else s == Redirect(FlashError(c1, NoPermission), ShowPath(db.restaurants[id].id)))
  {
    var gs := OwnerGuards;
    assert gs[1..] == [IsExistingRestaurantGuard, IsRestaurantAuthorGuard];
    assert gs[1..][1..] == [IsRestaurantAuthorGuard];
    assert gs[1..][1..][1..] == [];
  }

  /** A logged-in user who is not the restaurant's author gets a permission
      flash and is sent to the restaurant's page by edit, update and delete;
      the store is untouched and no image is destroyed. */
  lemma {:induction false} NonOwnerIsDenied(db: Db, env: Env, req: Request, session: Session)
    requires var r := Match(req.verb, req.path);
      r.EditRestaurant? || r.UpdateRestaurant? || r.DeleteRestaurant?
    requires session.user.Some?
    requires var id := Match(req.verb, req.path).id;
      id !in env.badIds && id in db.restaurants && db.restaurants[id].author != session.user.value.id
    ensures var o := HandleRequest(db, env, req, session);
      && o.db == db && o.log == []
      && o.response == RedirectTo(ShowPath(db.restaurants[Match(req.verb, req.path).id].id))
      && o.session.flash == Flash([], [NoPermission])
      && o.session.user == session.user
  {
    var r := Match(req.verb, req.path);
    var c := Start(req, session);
    OwnerGuardsOutcome(db, env, c);
    assert c.req.params.id == r.id && c.session.user == session.user;
    var doc := db.restaurants[r.id];
    var c1 := c.(locals := c.locals.(restaurant := Some(doc)));
    var stop := Redirect(FlashError(c1, NoPermission), ShowPath(doc.id));
    assert RunChain(OwnerGuards, db, env, c) == stop;
    if r.UpdateRestaurant? {
      assert Chain(r) == OwnerGuards + [ValidateRestaurantGuard];
      RunChainAppend(OwnerGuards, [ValidateRestaurantGuard], db, env, c);
    } else {
      assert Chain(r) == OwnerGuards;
    }
    assert RunChain(Chain(r), db, env, c) == stop;
    assert c.session.flash == NoFlash;
  }

  /** The owner-only routes pass their guards exactly when the user is
      logged in, the restaurant exists and the user is its author (and, for
      update, the form is valid). */
  lemma {:induction false} OwnerRoutesPassExactly(db: Db, env: Env, req: Request, session: Session)
    requires var r := Match(req.verb, req.path);
      r.EditRestaurant? || r.UpdateRestaurant? || r.DeleteRestaurant?
    ensures var r := Match(req.verb, req.path);
      RunChain(Chain(r), db, env, Start(req, session)).Next? <==>
        && session.user.Some? && r.id !in env.badIds && r.id in db.restaurants
        && db.restaurants[r.id].author == session.user.value.id
        && (r.UpdateRestaurant? ==> IsRestaurantPayload(req.body))
  {
    var r := Match(req.verb, req.path);
    var c := Start(req, session);
    OwnerGuardsOutcome(db, env, c);
    if r.UpdateRestaurant? {
      assert Chain(r) == OwnerGuards + [ValidateRestaurantGuard];
      RunChainAppend(OwnerGuards, [ValidateRestaurantGuard], db, env, c);
      var s := RunChain(OwnerGuards, db, env, c);
      if s.Next? {
        assert [ValidateRestaurantGuard][1..] == [];
        assert s.ctx.req.body == req.body;
      }
    } else {
      assert Chain(r) == OwnerGuards;
    }
  }

  /** The owner's delete removes the restaurant and every review it lists,
      issues one invalidating destroy per image in image order after the
      review delete, and redirects to the index. */
  lemma {:induction false} OwnerDeleteCascades(db: Db, env: Env, req: Request, session: Session)
    requires Match(req.verb, req.path).DeleteRestaurant?
    requires session.user.Some?
    requires var id := Match(req.verb, req.path).id;
      id !in env.badIds && id in db.restaurants && db.restaurants[id].author == session.user.value.id
    ensures var o := HandleRequest(db, env, req, session);
      var doc := db.restaurants[Match(req.verb, req.path).id];
      && o.db.restaurants == db.restaurants - {Match(req.verb, req.path).id}
      && o.db.reviews.Keys == db.reviews.Keys - IdSet(doc.reviews)
      && (forall k | k in o.db.reviews :: o.db.reviews[k] == db.reviews[k])
      && |o.log| == 1 + |doc.images|
      && o.log[0] == DeleteReviews(IdSet(doc.reviews))
      && (forall i | 0 <= i < |doc.images| :: o.log[i + 1] == DestroyImage(doc.images[i].fileName, true))
      && o.response == RedirectTo(IndexPath)
      && o.session.flash == Flash([RestaurantRoutes.Deleted], [])
  {
    var r := Match(req.verb, req.path);
    var c := Start(req, session);
    OwnerGuardsOutcome(db, env, c);
    assert Chain(r) == OwnerGuards;
    var doc := db.restaurants[r.id];
    var c1 := c.(locals := c.locals.(restaurant := Some(doc)));
    assert RunChain(Chain(r), db, env, c) == Next(c1);
    ChainEstablishes(Chain(r), db, env, c);
    var reply := Handle(r, db, env, c1);
    assert reply == RestaurantRoutes.Delete(db, c1);
    assert HandleRequest(db, env, req, session) == Outcome(reply.db, reply.ctx.session, reply.response, reply.log);
    assert [] + [RestaurantRoutes.Deleted] == [RestaurantRoutes.Deleted];
    var calls := DestroyCalls(doc.images);
    var log := [DeleteReviews(IdSet(doc.reviews))] + calls;
    forall i | 0 <= i < |doc.images|
      ensures log[i + 1] == DestroyImage(doc.images[i].fileName, true)
    {
      assert log[i + 1] == calls[i];
    }
  }

  /** The owner's update rewrites the four form fields of that restaurant
      and nothing else: author, images and reviews stay. */
  lemma {:induction false} OwnerUpdateWrites(db: Db, env: Env, req: Request, session: Session)
    requires Match(req.verb, req.path).UpdateRestaurant?
    requires session.user.Some? && IsRestaurantPayload(req.body)
    requires var id := Match(req.verb, req.path).id;
      id !in env.badIds && id in db.restaurants && db.restaurants[id].author == session.user.value.id
    ensures var o := HandleRequest(db, env, req, session);
      var id := Match(req.verb, req.path).id;
      var doc := o.db.restaurants[id];
      && o.db.reviews == db.reviews && o.log == []
      && o.db.restaurants.Keys == db.restaurants.Keys
      && (forall k | k in db.restaurants && k != id :: o.db.restaurants[k] == db.restaurants[k])
      && RestaurantFields(doc.title, doc.location, doc.price, doc.description) == DecodeRestaurant(req.body)
      && doc.author == db.restaurants[id].author && doc.images == db.restaurants[id].images
      && doc.reviews == db.restaurants[id].reviews
      && o.response == RedirectTo(ShowPath(id))
  {
    var r := Match(req.verb, req.path);
    var c := Start(req, session);
    OwnerRoutesPassExactly(db, env, req, session);
    assert c.req.body == req.body && c.req.params.id == r.id;
    var s := RunChain(Chain(r), db, env, c);
    ChainEstablishes(Chain(r), db, env, c);
    assert Holds(Chain(r)[1], db, env, s.ctx) && Holds(Chain(r)[3], db, env, s.ctx);
    var reply := Handle(r, db, env, s.ctx);
    assert reply == RestaurantRoutes.Update(db, s.ctx);
    assert HandleRequest(db, env, req, session) == Outcome(reply.db, reply.ctx.session, reply.response, reply.log);
  }

  // ------------------------------------------------------------ any request

  /** A chain that stops before the handler leaves the store alone and
      calls nothing on the image host. */
  lemma StoppedChainWritesNothing(db: Db, env: Env, req: Request, session: Session)
    requires !RunChain(Chain(Match(req.verb, req.path)), db, env, Start(req, session)).Next?
    ensures var o := HandleRequest(db, env, req, session);
      o.db == db && o.log == [] && (o.response.RedirectTo? || o.response.ErrorPage?)
  {
  }

  /** Every restaurant that survives a request keeps its author. */
  predicate AuthorsKept(db: Db, db': Db)
  {
    forall k | k in db.restaurants && k in db'.restaurants :: db'.restaurants[k].author == db.restaurants[k].author
  }

  /** The handlers that write: each keeps every document under its own id
      and every restaurant's author. */
  lemma {:induction false} CreateRestaurantKeepsStore(r: Route, db: Db, env: Env, c: Ctx)
    requires r.CreateRestaurant? && WellFormed(db) && Passed(r, db, env, c)
    ensures WellFormed(Handle(r, db, env, c).db) && AuthorsKept(db, Handle(r, db, env, c).db)
  {
    assert Holds(Chain(r)[0], db, env, c) && Holds(Chain(r)[2], db, env, c);
    assert Handle(r, db, env, c) == RestaurantRoutes.Create(db, env, c);
  }

  lemma {:induction false} UpdateKeepsStore(r: Route, db: Db, env: Env, c: Ctx)
    requires r.UpdateRestaurant? && WellFormed(db) && Passed(r, db, env, c)
    ensures WellFormed(Handle(r, db, env, c).db) && AuthorsKept(db, Handle(r, db, env, c).db)
  {
    assert Holds(Chain(r)[3], db, env, c);
    assert Handle(r, db, env, c) == RestaurantRoutes.Update(db, c);
  }

  lemma {:induction false} DeleteKeepsStore(r: Route, db: Db, env: Env, c: Ctx)
    requires r.DeleteRestaurant? && WellFormed(db) && Passed(r, db, env, c)
    ensures WellFormed(Handle(r, db, env, c).db) && AuthorsKept(db, Handle(r, db, env, c).db)
  {
    assert Handle(r, db, env, c) == RestaurantRoutes.Delete(db, c);
    DeleteKeepsWellFormed(db, c.req.params.id);
  }

  lemma {:induction false} CreateReviewKeepsStore(r: Route, db: Db, env: Env, c: Ctx)
    requires r.CreateReview? && WellFormed(db) && Passed(r, db, env, c)
    ensures WellFormed(Handle(r, db, env, c).db) && AuthorsKept(db, Handle(r, db, env, c).db)
  {
    assert Holds(Chain(r)[0], db, env, c) && Holds(Chain(r)[1], db, env, c) && Holds(Chain(r)[2], db, env, c);
    assert Handle(r, db, env, c) == ReviewRoutes.Create(db, env, c);
    var doc := c.locals.restaurant.value;
    assert doc == db.restaurants[c.req.params.id] && doc.id == c.req.params.id;
  }

  lemma {:induction false} DeleteReviewKeepsStore(r: Route, db: Db, env: Env, c: Ctx)
    requires r.DeleteReview? && WellFormed(db) && Passed(r, db, env, c)
    ensures WellFormed(Handle(r, db, env, c).db) && AuthorsKept(db, Handle(r, db, env, c).db)
  {
    assert Handle(r, db, env, c) == ReviewRoutes.Delete(db, c);
  }

  /** A handler run after its chain passed keeps every document under its
      own id and every restaurant's author. */
  lemma {:induction false} HandleKeepsStore(r: Route, db: Db, env: Env, c: Ctx)
    requires WellFormed(db) && Passed(r, db, env, c)
    ensures WellFormed(Handle(r, db, env, c).db)
    ensures AuthorsKept(db, Handle(r, db, env, c).db)
  {
    if r.CreateRestaurant? {
      CreateRestaurantKeepsStore(r, db, env, c);
    } else if r.UpdateRestaurant? {
      UpdateKeepsStore(r, db, env, c);
    } else if r.DeleteRestaurant? {
      DeleteKeepsStore(r, db, env, c);
    } else if r.CreateReview? {
      CreateReviewKeepsStore(r, db, env, c);
    } else if r.DeleteReview? {
      DeleteReviewKeepsStore(r, db, env, c);
    }
  }

  /** No request stores a document under a foreign id, and none reassigns
      the author of a restaurant. */
  lemma {:induction false} StoreInvariantsKept(db: Db, env: Env, req: Request, session: Session)
    requires WellFormed(db)
    ensures WellFormed(HandleRequest(db, env, req, session).db)
    ensures AuthorsKept(db, HandleRequest(db, env, req, session).db)
  {
    var r := Match(req.verb, req.path);
    var c := Start(req, session);
    var s := RunChain(Chain(r), db, env, c);
    if s.Next? {
      ChainEstablishes(Chain(r), db, env, c);
      HandleKeepsStore(r, db, env, s.ctx);
      assert HandleRequest(db, env, req, session).db == Handle(r, db, env, s.ctx).db;
    }
  }

  // ---------------------------------------------------------- login gate

  /** Every route whose chain starts at the login gate sends an anonymous
      request to the login page, recording the full original url in the
      session and flashing the login prompt; the store is untouched. */
  lemma {:induction false} GateRecordsReturnTo(db: Db, env: Env, req: Request, session: Session)
    requires var gs := Chain(Match(req.verb, req.path)); gs != [] && gs[0] == IsLoggedInGuard
    requires session.user.None?
    ensures var o := HandleRequest(db, env, req, session);
      && o.response == RedirectTo(LoginPath)
      && o.session == Session(None, Some(OriginalUrl(req)), Flash([], [MustLogIn]))
      && o.db == db && o.log == []
  {
    var c := Start(req, session);
    assert OriginalUrl(c.req) == OriginalUrl(req);
    assert [] + [MustLogIn] == [MustLogIn];
  }

  /** An anonymous visit to the new-restaurant form records the url with its
      mount prefix, `/restaurants/new`, so the login brings the user back to
      the form rather than to `/new`. */
  lemma NewFormRecordsFullUrl(db: Db, env: Env, req: Request, session: Session)
    requires Match(req.verb, req.path) == NewRestaurant && session.user.None?
    ensures HandleRequest(db, env, req, session).session.returnTo == Some("/restaurants/new" + req.query)
  {
    GateRecordsReturnTo(db, env, req, session);
    NewFormUrl(req);
  }

  /** GET `/restaurants/new` is guarded only by the login gate: a logged-in
      user gets the form. */
  lemma NewFormForLoggedIn(db: Db, env: Env, req: Request, session: Session)
    requires Match(req.verb, req.path) == NewRestaurant && session.user.Some?
    ensures var o := HandleRequest(db, env, req, session);
      o.response == Render("restaurants/new", NoData) && o.db == db && o.log == []
  {
    var c := Start(req, session);
    assert RunChain([IsLoggedInGuard], db, env, c) == RunChain([], db, env, c);
  }

  /** The index needs no login and lists every stored restaurant and
      nothing else, writing nothing. */
  lemma IndexListsStore(db: Db, env: Env, req: Request, session: Session)
    requires Match(req.verb, req.path) == RestaurantIndex
    ensures var o := HandleRequest(db, env, req, session);
      && o.db == db && o.log == []
      && o.response.Render? && o.response.view == "restaurants/index" && o.response.data.Listing?
      && (forall id | id in db.restaurants :: db.restaurants[id] in o.response.data.restaurants)
      && (forall d | d in o.response.data.restaurants :: exists id | id in db.restaurants :: db.restaurants[id] == d)
  {
  }

  /** The restaurant's author, logged in, gets the edit form for the stored
      document; nothing is written. */
  lemma {:induction false} OwnerEditFormShowsDocument(db: Db, env: Env, req: Request, session: Session)
    requires Match(req.verb, req.path).EditRestaurant?
    requires session.user.Some?
    requires var id := Match(req.verb, req.path).id;
      id !in env.badIds && id in db.restaurants && db.restaurants[id].author == session.user.value.id
    ensures var o := HandleRequest(db, env, req, session);
      && o.db == db && o.log == []
      && o.response == Render("restaurants/edit", Detail(db.restaurants[Match(req.verb, req.path).id]))
  {
    var r := Match(req.verb, req.path);
    var c := Start(req, session);
    OwnerGuardsOutcome(db, env, c);
    assert Chain(r) == OwnerGuards;
    var c1 := c.(locals := c.locals.(restaurant := Some(db.restaurants[r.id])));
    assert RunChain(Chain(r), db, env, c) == Next(c1);
    ChainEstablishes(Chain(r), db, env, c);
    assert Handle(r, db, env, c1) == RestaurantRoutes.Show(db, c1, "restaurants/edit");
  }

  /** A detail page needs no login, only an existing restaurant. */
  lemma {:induction false} ShowNeedsNoLogin(db: Db, env: Env, req: Request, session: Session)
    requires Match(req.verb, req.path).ShowRestaurant?
    ensures var o := HandleRequest(db, env, req, session);
      var id := Match(req.verb, req.path).id;
      && o.db == db
      && (id in env.badIds ==> o.response == ErrorResponse(CastError(id, "Restaurant")))
      && (id !in env.badIds && id in db.restaurants ==>
            o.response == Render("restaurants/show", Detail(db.restaurants[id])))
      && (id !in env.badIds && id !in db.restaurants ==>
            o.response == RedirectTo(IndexPath) && o.session.flash == Flash([], [RestaurantNotFound]))
  {
    var r := Match(req.verb, req.path);
    var c := Start(req, session);
    assert [IsExistingRestaurantGuard][1..] == [];
    assert [] + [RestaurantNotFound] == [RestaurantNotFound];
    if r.id !in env.badIds && r.id in db.restaurants {
      var s := RunChain(Chain(r), db, env, c);
      ChainEstablishes(Chain(r), db, env, c);
      assert Holds(Chain(r)[0], db, env, s.ctx);
    }
  }

  // --------------------------------------------------------------- login

  /** POST `/login`: `return_to` is read before authentication replaces the
      session. A success sends the user to it (or to the index) and leaves a
      fresh session without it; a rejection goes back to the login page with
      the strategy's message and keeps it for the next attempt. */
  lemma {:induction false} LoginOutcome(db: Db, env: Env, req: Request, session: Session)
    requires Match(req.verb, req.path) == Login
    ensures var o := HandleRequest(db, env, req, session);
      && o.db == db && o.log == []
      && (env.auth.Authenticated? ==>
            && o.response == RedirectTo(UserRoutes.AfterLogin(session.returnTo))
            && o.session == Session(Some(env.auth.user), None, Flash([UserRoutes.WelcomeBack], [])))
      && (env.auth.Rejected? ==>
            && o.response == RedirectTo(LoginPath)
            && o.session == Session(session.user, session.returnTo, Flash([], [env.auth.message])))
      && (env.auth.AuthError? ==> o.response == ErrorResponse(env.auth.err))
  {
    var c := Start(req, session);
    var gs := Chain(Login);
    assert gs[1..] == [AuthenticateGuard] && gs[1..][1..] == [];
    var c1 := StoreReturnTo(c).ctx;
    assert c1.locals.returnTo == (if Truthy(session.returnTo) then session.returnTo else None);
    assert UserRoutes.AfterLogin(c1.locals.returnTo) == UserRoutes.AfterLogin(session.returnTo);
    assert [] + [UserRoutes.WelcomeBack] == [UserRoutes.WelcomeBack];
    if env.auth.Rejected? {
      assert [] + [env.auth.message] == [env.auth.message];
    }
    if env.auth.Authenticated? {
      var s := RunChain(gs, db, env, c);
      assert s == Next(c1.(session := FreshSession(Some(env.auth.user))));
    }
  }

  /** The login gate and the login route together: after being turned away
      from a guarded page, a successful login returns to exactly that page,
      and the next successful login goes to the index. */
  lemma {:induction false} ReturnToUsedOnce(
    db: Db, env: Env, gated: Request, session: Session,
    loginEnv: Env, login: Request, againEnv: Env, again: Request)
    requires var gs := Chain(Match(gated.verb, gated.path)); gs != [] && gs[0] == IsLoggedInGuard
    requires session.user.None?
    requires Match(login.verb, login.path) == Login && loginEnv.auth.Authenticated?
    requires Match(again.verb, again.path) == Login && againEnv.auth.Authenticated?
    ensures var o1 := HandleRequest(db, env, gated, session);
      var o2 := HandleRequest(db, loginEnv, login, o1.session);
      var o3 := HandleRequest(db, againEnv, again, o2.session);
      && o1.response == RedirectTo(LoginPath)
      && o2.response == RedirectTo(OriginalUrl(gated))
      && o3.response == RedirectTo(IndexPath)
  {
    GateRecordsReturnTo(db, env, gated, session);
    var o1 := HandleRequest(db, env, gated, session);
    LoginOutcome(db, loginEnv, login, o1.session);
    var o2 := HandleRequest(db, loginEnv, login, o1.session);
    LoginOutcome(db, againEnv, again, o2.session);
  }

  // ------------------------------------------------------------- errors

  /** A request no route declares ends as a 404 with the not-found text. */
  lemma UnmatchedIs404(db: Db, env: Env, req: Request, session: Session)
    requires Match(req.verb, req.path).NotFound?
    ensures HandleRequest(db, env, req, session).response == ErrorPage(404, "Page Not Found!")
    ensures HandleRequest(db, env, req, session).db == db
  {
  }

  /** A logged-in create with a rejected form reaches the client as a 400
      carrying the first violation, and nothing is stored. */
  lemma {:induction false} InvalidRestaurantIs400(db: Db, env: Env, req: Request, session: Session)
    requires Match(req.verb, req.path) == CreateRestaurant
    requires session.user.Some? && !env.upload.UploadFailed?
    requires !IsRestaurantPayload(req.body)
    ensures var o := HandleRequest(db, env, req, session);
      && o.response == ErrorPage(400, RestaurantViolations(req.body)[0])
      && o.db == db && o.log == []
  {
    CreateChainRejects(db, env, Start(req, session));
  }

  /** The create chain stops at validation with a 400 carrying the first
      violation when the form is rejected. */
  lemma {:induction false} CreateChainRejects(db: Db, env: Env, c: Ctx)
    requires c.session.user.Some? && !env.upload.UploadFailed?
    requires RestaurantViolations(c.req.body) != []
    ensures var s := RunChain(Chain(CreateRestaurant), db, env, c);
      s.Fail? && s.err == ExpressError(400, RestaurantViolations(c.req.body)[0])
  {
    var gs := Chain(CreateRestaurant);
    assert gs[1..] == [UploadGuard, ValidateRestaurantGuard];
    assert gs[1..][1..] == [ValidateRestaurantGuard] && gs[1..][1..][1..] == [];
    var c1 := if env.upload.Uploaded? then c.(req := c.req.(files := Some(env.upload.files))) else c;
    var s2 := ValidateRestaurant(c1);
    assert RunGuard(gs[0], db, env, c) == Next(c);
    assert RunGuard(gs[1], db, env, c) == Next(c1);
    assert RunGuard(gs[2], db, env, c1) == s2 && s2.Fail?;
    assert RunChain(gs[1..][1..], db, env, c1) == s2;
    assert RunChain(gs[1..], db, env, c) == s2;
  }

  /** An id the store cannot cast is forwarded as an unexpected error: the
      client gets a 500 with the cast message. */
  lemma {:induction false} MalformedIdIs500(db: Db, env: Env, req: Request, session: Session)
    requires Match(req.verb, req.path).ShowRestaurant?
    requires Match(req.verb, req.path).id in env.badIds
    ensures var o := HandleRequest(db, env, req, session);
      o.response == ErrorPage(500, CastError(Match(req.verb, req.path).id, "Restaurant").message)
  {
    ShowNeedsNoLogin(db, env, req, session);
  }

  // -------------------------------------------------------------- create

  /** A logged-in user's valid create with a fresh id saves a restaurant
      authored by that user, with one image per uploaded file in upload
      order, and redirects to its page; nothing else in the store changes. */
  lemma {:induction false} CreateRestaurantSaves(db: Db, env: Env, req: Request, session: Session)
    requires Match(req.verb, req.path) == CreateRestaurant
    requires session.user.Some? && env.upload.Uploaded? && IsRestaurantPayload(req.body)
    requires env.freshId !in db.restaurants
    ensures var o := HandleRequest(db, env, req, session);
      && o.db.reviews == db.reviews && o.log == []
      && o.db.restaurants.Keys == db.restaurants.Keys + {env.freshId}
      && var n := o.db.restaurants[env.freshId];
      var files := env.upload.files;
      && (forall k | k in db.restaurants :: o.db.restaurants[k] == db.restaurants[k])
      && n.id == env.freshId && n.author == session.user.value.id && n.reviews == []
      && RestaurantFields(n.title, n.location, n.price, n.description) == DecodeRestaurant(req.body)
      && |n.images| == |files|
      && (forall i | 0 <= i < |files| :: n.images[i] == Image(files[i].path, files[i].filename))
      && o.response == RedirectTo(ShowPath(env.freshId))
      && o.session.flash == Flash([RestaurantRoutes.Created], [])
  {
    var c := Start(req, session);
    var c1 := c.(req := c.req.(files := Some(env.upload.files)));
    CreateChainPasses(db, env, req, session);
    var gs := Chain(CreateRestaurant);
    ChainEstablishes(gs, db, env, c);
    assert Holds(gs[0], db, env, c1) && Holds(gs[2], db, env, c1);
    var reply := Handle(CreateRestaurant, db, env, c1);
    assert reply == RestaurantRoutes.Create(db, env, c1);
    assert HandleRequest(db, env, req, session) == Outcome(reply.db, reply.ctx.session, reply.response, reply.log);
    assert c1.req.files == Some(env.upload.files) && c1.req.body == req.body && c1.session.user == session.user;
    assert c1.session.flash == NoFlash;
    assert [] + [RestaurantRoutes.Created] == [RestaurantRoutes.Created];
  }

  /** A logged-in user's valid create sent as a plain urlencoded form
      passes every guard, but the upload middleware leaves `req.files`
      undefined: the handler throws, the client gets a 500 with the
      TypeError's message, and nothing is stored. */
  lemma {:induction false} UrlencodedCreateIs500(db: Db, env: Env, req: Request, session: Session)
    requires Match(req.verb, req.path) == CreateRestaurant
    requires session.user.Some? && env.upload.NotMultipart? && IsRestaurantPayload(req.body)
    ensures var o := HandleRequest(db, env, req, session);
      && o.response == ErrorPage(DefaultStatus, ReadMapOfUndefined.message)
      && o.db == db && o.log == []
  {
    var c := Start(req, session);
    assert c.session.user.Some? && c.req.body == req.body && c.req.files.None?;
    CreateChainPasses(db, env, req, session);
    var gs := Chain(CreateRestaurant);
    ChainEstablishes(gs, db, env, c);
    assert Holds(gs[0], db, env, c) && Holds(gs[2], db, env, c);
    var reply := Handle(CreateRestaurant, db, env, c);
    assert reply == RestaurantRoutes.Create(db, env, c);
    assert HandleRequest(db, env, req, session) == Outcome(reply.db, reply.ctx.session, ErrorResponse(reply.err), []);
  }

  /** The create chain passes for a logged-in user whose upload did not
      fail and whose form is valid, having stored the uploaded files in the
      request when there were any. */
  lemma {:induction false} CreateChainPasses(db: Db, env: Env, req: Request, session: Session)
    requires Match(req.verb, req.path) == CreateRestaurant
    requires session.user.Some? && !env.upload.UploadFailed? && IsRestaurantPayload(req.body)
    ensures var c := Start(req, session);
      RunChain(Chain(CreateRestaurant), db, env, c) ==
        Next(if env.upload.Uploaded? then c.(req := c.req.(files := Some(env.upload.files))) else c)
  {
    var c := Start(req, session);
    var gs := Chain(CreateRestaurant);
    assert gs[1..] == [UploadGuard, ValidateRestaurantGuard];
    assert gs[1..][1..] == [ValidateRestaurantGuard] && gs[1..][1..][1..] == [];
    assert c.session.user.Some? && c.req.body == req.body;
    var c1 := if env.upload.Uploaded? then c.(req := c.req.(files := Some(env.upload.files))) else c;
    assert RunGuard(gs[0], db, env, c) == Next(c);
    assert RunGuard(gs[1], db, env, c) == Next(c1);
    assert RunGuard(gs[2], db, env, c1) == Next(c1);
    assert RunChain(gs[1..][1..], db, env, c1) == Next(c1);
    assert RunChain(gs[1..], db, env, c) == Next(c1);
  }

  // ------------------------------------------------------------- reviews

  /** The review-create chain passes, having resolved the restaurant, for a
      logged-in user, an existing restaurant and a valid form. */
  lemma {:induction false} CreateReviewChainPasses(db: Db, env: Env, req: Request, session: Session)
    requires Match(req.verb, req.path).CreateReview?
    requires session.user.Some? && IsReviewPayload(req.body)
    requires var id := Match(req.verb, req.path).id; id !in env.badIds && id in db.restaurants
    ensures var c := Start(req, session);
      var doc := db.restaurants[Match(req.verb, req.path).id];
      RunChain(Chain(Match(req.verb, req.path)), db, env, c) == Next(c.(locals := c.locals.(restaurant := Some(doc))))
  {
    var r := Match(req.verb, req.path);
    var c := Start(req, session);
    var gs := Chain(r);
    assert gs[1..] == [IsExistingRestaurantGuard, ValidateReviewGuard];
    assert gs[1..][1..] == [ValidateReviewGuard] && gs[1..][1..][1..] == [];
    var doc := db.restaurants[r.id];
    assert c.req.params == ParamsOf(r) && c.session.user.Some? && c.req.body == req.body;
    var c1 := c.(locals := c.locals.(restaurant := Some(doc)));
    assert RunGuard(gs[0], db, env, c) == Next(c);
    assert RunGuard(gs[1], db, env, c) == Next(c1);
    assert RunGuard(gs[2], db, env, c1) == Next(c1);
    assert RunChain(gs[1..][1..], db, env, c1) == Next(c1);
    assert RunChain(gs[1..], db, env, c) == Next(c1);
    assert RunChain(gs, db, env, c) == Next(c1);
  }

  /** A logged-in user's valid review of an existing restaurant appends the
      new review's id to that restaurant's list (the earlier entries stay in
      place) and stores the review, authored by the user, under that id. */
  lemma {:induction false} CreateReviewAppends(db: Db, env: Env, req: Request, session: Session)
    requires WellFormed(db)
    requires Match(req.verb, req.path).CreateReview?
    requires session.user.Some? && IsReviewPayload(req.body)
    requires var id := Match(req.verb, req.path).id; id !in env.badIds && id in db.restaurants
    requires env.freshId !in db.reviews
    ensures var o := HandleRequest(db, env, req, session);
      var id := Match(req.verb, req.path).id;
      var before := db.restaurants[id].reviews;
      var after := o.db.restaurants[id].reviews;
      var f := DecodeReview(req.body);
      && o.db.restaurants.Keys == db.restaurants.Keys
      && (forall k | k in db.restaurants && k != id :: o.db.restaurants[k] == db.restaurants[k])
      && |after| == |before| + 1 && after[..|before|] == before && after[|before|] == env.freshId
      && o.db.reviews.Keys == db.reviews.Keys + {env.freshId}
      && (forall k | k in db.reviews :: o.db.reviews[k] == db.reviews[k])
      && o.db.reviews[env.freshId] == Review(env.freshId, f.rating, f.body, session.user.value.id)
      && o.response == RedirectTo(ShowPath(id)) && o.log == []
  {
    var r := Match(req.verb, req.path);
    var c := Start(req, session);
    var gs := Chain(r);
    var doc := db.restaurants[r.id];
    var c1 := c.(locals := c.locals.(restaurant := Some(doc)));
    CreateReviewChainPasses(db, env, req, session);
    assert c1.req.params == ParamsOf(r) && c1.req.body == req.body && c1.session.user == session.user;
    ChainEstablishes(gs, db, env, c);
    assert Holds(gs[0], db, env, c1) && Holds(gs[1], db, env, c1) && Holds(gs[2], db, env, c1);
    var reply := Handle(r, db, env, c1);
    assert reply == ReviewRoutes.Create(db, env, c1);
    assert HandleRequest(db, env, req, session) == Outcome(reply.db, reply.ctx.session, reply.response, reply.log);
    assert doc.id == r.id;
    assert (doc.reviews + [env.freshId])[..|doc.reviews|] == doc.reviews;
  }

  /** A review id already in use fails the save after the restaurant was
      saved: the restaurant lists an id whose review was not stored. */
  lemma {:induction false} DuplicateReviewIdLeavesDanglingRef(db: Db, env: Env, req: Request, session: Session)
    requires WellFormed(db)
    requires Match(req.verb, req.path).CreateReview?
    requires session.user.Some? && IsReviewPayload(req.body)
    requires var id := Match(req.verb, req.path).id; id !in env.badIds && id in db.restaurants
    requires env.freshId in db.reviews
    ensures var o := HandleRequest(db, env, req, session);
      var id := Match(req.verb, req.path).id;
      && o.response == ErrorPage(DefaultStatus, DuplicateKeyError(env.freshId).message)
      && o.db.reviews == db.reviews
      && o.db.restaurants[id].reviews == db.restaurants[id].reviews + [env.freshId]
  {
    var r := Match(req.verb, req.path);
    var c := Start(req, session);
    var gs := Chain(r);
    var doc := db.restaurants[r.id];
    var c1 := c.(locals := c.locals.(restaurant := Some(doc)));
    CreateReviewChainPasses(db, env, req, session);
    assert c1.req.params == ParamsOf(r) && c1.req.body == req.body && c1.session.user == session.user;
    ChainEstablishes(gs, db, env, c);
    assert Holds(gs[0], db, env, c1) && Holds(gs[1], db, env, c1) && Holds(gs[2], db, env, c1);
    var reply := Handle(r, db, env, c1);
    assert reply == ReviewRoutes.Create(db, env, c1);
    assert HandleRequest(db, env, req, session) == Outcome(reply.db, reply.ctx.session, ErrorResponse(reply.err), []);
    assert doc.id == r.id;
  }

  // ---------------------------------------------------------- accounts

  /** POST `/register`: a refusal returns to the form with the reason
      flashed and the session's user unchanged; a success logs the new user
      in with a fresh session and goes to the index. The store is never
      written. */
  lemma {:induction false} RegisterOutcome(db: Db, env: Env, req: Request, session: Session)
    requires Match(req.verb, req.path) == Register
    ensures var o := HandleRequest(db, env, req, session);
      && o.db == db && o.log == []
      && (env.register.RegisterFailed? ==>
            && o.response == RedirectTo(UserRoutes.RegisterPath)
            && o.session == Session(session.user, session.returnTo, Flash([], [env.register.message])))
      && (env.register.Registered? && env.loginError.None? ==>
            && o.response == RedirectTo(IndexPath)
            && o.session == Session(Some(env.register.user), None, Flash([UserRoutes.Welcome], [])))
      && (env.register.Registered? && env.loginError.Some? ==>
            o.response == ErrorResponse(env.loginError.value))
  {
    var c := Start(req, session);
    assert RunChain(Chain(Register), db, env, c) == Next(c);
    ChainEstablishes(Chain(Register), db, env, c);
    var reply := Handle(Register, db, env, c);
    assert reply == UserRoutes.Register(db, env, c);
    if env.register.RegisterFailed? {
      assert [] + [env.register.message] == [env.register.message];
    }
  }

  /** GET `/logout` ends the session and goes to the index, unless the
      logout itself fails. */
  lemma {:induction false} LogoutOutcome(db: Db, env: Env, req: Request, session: Session)
    requires Match(req.verb, req.path) == Logout
    ensures var o := HandleRequest(db, env, req, session);
      && o.db == db && o.log == []
      && (env.logoutError.None? ==>
            o.response == RedirectTo(IndexPath) && o.session == Session(None, None, Flash([UserRoutes.LoggedOut], [])))
      && (env.logoutError.Some? ==> o.response == ErrorResponse(env.logoutError.value))
  {
    var c := Start(req, session);
    assert RunChain(Chain(Logout), db, env, c) == Next(c);
    ChainEstablishes(Chain(Logout), db, env, c);
    var reply := Handle(Logout, db, env, c);
    assert reply == UserRoutes.Logout(db, env, c);
  }

  // ------------------------------------------------------ review delete

  /** Review deletion passes its guards exactly when the user is logged in,
      both documents exist and the user wrote the review. Who owns the
      restaurant plays no part, and neither does whether the restaurant
      lists the review. */
  lemma {:induction false} ReviewDeletePassesExactly(db: Db, env: Env, req: Request, session: Session)
    requires Match(req.verb, req.path).DeleteReview?
    ensures var r := Match(req.verb, req.path);
      RunChain(Chain(r), db, env, Start(req, session)).Next? <==>
        && session.user.Some?
        && r.id !in env.badIds && r.id in db.restaurants
        && r.reviewId !in env.badIds && r.reviewId in db.reviews
        && db.reviews[r.reviewId].author == session.user.value.id
    ensures var r := Match(req.verb, req.path);
      var c := Start(req, session);
      RunChain(Chain(r), db, env, c).Next? ==>
        RunChain(Chain(r), db, env, c) ==
          Next(c.(locals := c.locals.(restaurant := Some(db.restaurants[r.id]), review := Some(db.reviews[r.reviewId]))))
  {
    var r := Match(req.verb, req.path);
    var c := Start(req, session);
    var gs := Chain(r);
    assert c.req.params == ParamsOf(r);
    assert gs[1..] == [IsExistingRestaurantGuard, IsExistingReviewGuard, IsReviewAuthorGuard];
    assert gs[1..][1..] == [IsExistingReviewGuard, IsReviewAuthorGuard];
    assert gs[1..][1..][1..] == [IsReviewAuthorGuard] && gs[1..][1..][1..][1..] == [];
    if session.user.Some? && r.id !in env.badIds && r.id in db.restaurants {
      var c1 := c.(locals := c.locals.(restaurant := Some(db.restaurants[r.id])));
      assert RunChain(gs, db, env, c) == RunChain(gs[1..][1..], db, env, c1);
      if r.reviewId !in env.badIds && r.reviewId in db.reviews {
        var c2 := c1.(locals := c1.locals.(review := Some(db.reviews[r.reviewId])));
        assert RunChain(gs[1..][1..], db, env, c1) == RunChain(gs[1..][1..][1..], db, env, c2);
        assert c2.session.user == session.user;
        assert OwnsReview(c2) <==> db.reviews[r.reviewId].author == session.user.value.id;
        assert RunChain(gs[1..][1..][1..], db, env, c2) == (if OwnsReview(c2) then Next(c2) else Deny(c2));
      }
    }
  }

  /** The review author's delete pulls every occurrence of the review id
      from the restaurant in the url (its other entries keep their order
      and multiplicity), deletes the review record, and leaves every other
      document alone. */
  lemma {:induction false} ReviewDeletePulls(db: Db, env: Env, req: Request, session: Session)
    requires Match(req.verb, req.path).DeleteReview?
    requires var r := Match(req.verb, req.path);
      && session.user.Some?
      && r.id !in env.badIds && r.id in db.restaurants
      && r.reviewId !in env.badIds && r.reviewId in db.reviews
      && db.reviews[r.reviewId].author == session.user.value.id
    ensures var o := HandleRequest(db, env, req, session);
      var r := Match(req.verb, req.path);
      var before := db.restaurants[r.id].reviews;
      && o.db.reviews == db.reviews - {r.reviewId}
      && o.db.restaurants.Keys == db.restaurants.Keys
      && (forall k | k in db.restaurants && k != r.id :: o.db.restaurants[k] == db.restaurants[k])
      && o.db.restaurants[r.id] == db.restaurants[r.id].(reviews := o.db.restaurants[r.id].reviews)
      && r.reviewId !in o.db.restaurants[r.id].reviews
      && multiset(o.db.restaurants[r.id].reviews) == multiset(before)[r.reviewId := 0]
      && (r.reviewId !in before ==> o.db.restaurants[r.id] == db.restaurants[r.id])
      && o.response == RedirectTo(ShowPath(r.id)) && o.log == []
      && o.session.flash == Flash([ReviewRoutes.Deleted], [])
  {
    var r := Match(req.verb, req.path);
    var c := Start(req, session);
    ReviewDeletePassesExactly(db, env, req, session);
    var s := RunChain(Chain(r), db, env, c);
    assert s.ctx.req.params == ParamsOf(r) && s.ctx.session.flash == NoFlash;
    ChainEstablishes(Chain(r), db, env, c);
    var reply := Handle(r, db, env, s.ctx);
    assert reply == ReviewRoutes.Delete(db, s.ctx);
    assert HandleRequest(db, env, req, session) == Outcome(reply.db, reply.ctx.session, reply.response, reply.log);
    assert [] + [ReviewRoutes.Deleted] == [ReviewRoutes.Deleted];
    var before := db.restaurants[r.id].reviews;
    if r.reviewId !in before {
      PullAbsent(before, r.reviewId);
    }
  }

  /** Review deletion never checks that the review belongs to the restaurant
      in the url: through another restaurant's url its author deletes the
      record while the restaurant that lists it keeps the id. */
  lemma {:induction false} ForeignUrlLeavesDanglingRef(db: Db, env: Env, req: Request, session: Session, owner: Id)
    requires Match(req.verb, req.path).DeleteReview?
    requires var r := Match(req.verb, req.path);
      && session.user.Some?
      && r.id !in env.badIds && r.id in db.restaurants
      && r.reviewId !in env.badIds && r.reviewId in db.reviews
      && db.reviews[r.reviewId].author == session.user.value.id
    requires var r := Match(req.verb, req.path);
      owner in db.restaurants && owner != r.id && r.reviewId in db.restaurants[owner].reviews
    ensures var o := HandleRequest(db, env, req, session);
      var rid := Match(req.verb, req.path).reviewId;
      && o.response.RedirectTo?
      && rid !in o.db.reviews
      && owner in o.db.restaurants && rid in o.db.restaurants[owner].reviews
  {
    ReviewDeletePulls(db, env, req, session);
  }
}
