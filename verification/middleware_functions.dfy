/** The request guards and the left-to-right fold that runs a route's guard
    list, stopping at the first guard that does not call `next()`. */
module Middleware {
  import opened Base
  import opened ExpressErrors
  import opened ValidationSchemas
  import opened Models
  import opened Context

  const LoginPath: string := "/login"
  const IndexPath: string := "/restaurants"
  const MustLogIn: string := "You must be logged in!"
  const RestaurantNotFound: string := "Couldn't find that restaurant!"
  const ReviewNotFound: string := "Couldn't find that review!"
  const NoPermission: string := "You do not have permission to do that!"

  /** The detail page of a restaurant. */
  function ShowPath(id: Id): string
  {
    IndexPath + "/" + id
  }

  // ------------------------------------------------------------ login gate

  /** `is_logged_in`: an anonymous request records where it was going, is
      told to log in and is sent to the login page; an authenticated one
      passes untouched. */
  function IsLoggedIn(c: Ctx): (s: Step)
    ensures s.Next? <==> c.session.user.Some?
    ensures s.Next? ==> s.ctx == c
    ensures !s.Next? ==> s.Redirect? && s.path == LoginPath
    ensures s.Redirect? ==> s.ctx.session.returnTo == Some(OriginalUrl(c.req))
    ensures s.Redirect? ==> s.ctx.session.flash == c.session.flash.(error := c.session.flash.error + [MustLogIn])
    ensures s.ctx.session.user == c.session.user && s.ctx.req == c.req && s.ctx.locals == c.locals
  {
    if c.session.user.None? then
      var c' := c.(session := c.session.(returnTo := Some(OriginalUrl(c.req))));
      Redirect(FlashError(c', MustLogIn), LoginPath)
    else
      Next(c)
  }

  /** `store_return_to`: copies a set `return_to` from the session into the
      locals; never stops the chain and never touches the session. */
  function StoreReturnTo(c: Ctx): (s: Step)
    ensures s.Next?
    ensures s.ctx.req == c.req && s.ctx.session == c.session
    ensures s.ctx.locals.returnTo == if Truthy(c.session.returnTo) then c.session.returnTo else c.locals.returnTo
    ensures s.ctx.locals == c.locals.(returnTo := s.ctx.locals.returnTo)
  {
    if Truthy(c.session.returnTo) then Next(c.(locals := c.locals.(returnTo := c.session.returnTo)))
    else Next(c)
  }

  // ------------------------------------------------------------ validation

  /** A schema check on the body: the reported violations, joined with ", ",
      become a 400 error; a clean body passes untouched. */
  function Validate(c: Ctx, violations: seq<string>): (s: Step)
    ensures s.Next? <==> violations == []
    ensures s.Next? ==> s.ctx == c
    ensures !s.Next? ==> s.Fail? && s.ctx == c
    ensures s.Fail? ==> s.err == ExpressError(400, Join(Reported(violations, AbortEarly), ", "))
  {
    if violations != [] then Fail(c, ExpressError(400, Join(Reported(violations, AbortEarly), ", ")))
    else Next(c)
  }

  /** The 400 message `validate_*` builds from the reported details: under
      Joi's early abort it is exactly the first violation; were every
      violation reported, each would appear whole at its offset. The second
      half covers the `abortEarly: false` option the `join(",")` is written
      for, which the routes do not pass. */
  lemma {:induction false} ValidationMessage(violations: seq<string>, abortEarly: bool, i: nat)
    requires i < |violations|
    ensures abortEarly ==> Join(Reported(violations, abortEarly), ", ") == violations[0]
    ensures !abortEarly ==>
      var m := Join(Reported(violations, abortEarly), ", ");
      var o := Offset(violations, ", ", i);
      o + |violations[i]| <= |m| && m[o..o + |violations[i]|] == violations[i]
  {
    if abortEarly {
      JoinSingle(violations[0], ", ");
    } else {
      JoinFragment(violations, ", ", i);
    }
  }

  /** `validate_restaurant`. */
  function ValidateRestaurant(c: Ctx): (s: Step)
    ensures s.Next? <==> IsRestaurantPayload(c.req.body)
    ensures s.Fail? ==> s.err.statusCode == Some(400) && s.err.message == RestaurantViolations(c.req.body)[0]
    ensures s.ctx == c
  {
    Validate(c, RestaurantViolations(c.req.body))
  }

  /** `validate_review`. */
  function ValidateReview(c: Ctx): (s: Step)
    ensures s.Next? <==> IsReviewPayload(c.req.body)
    ensures s.Fail? ==> s.err.statusCode == Some(400) && s.err.message == ReviewViolations(c.req.body)[0]
    ensures s.ctx == c
  {
    Validate(c, ReviewViolations(c.req.body))
  }

  // ------------------------------------------------------------- resolvers

  /** `is_existing_restaurant`: a found restaurant is put in the locals; a
      missing one is a flash and a redirect to the index; a lookup error is
      forwarded. */
  function IsExistingRestaurant(db: Db, badIds: set<Id>, c: Ctx): (s: Step)
    ensures var id := c.req.params.id;
      && (s.Next? <==> id !in badIds && id in db.restaurants)
      && (s.Redirect? <==> id !in badIds && id !in db.restaurants)
      && (s.Fail? <==> id in badIds)
    ensures s.Next? ==> s.ctx == c.(locals := c.locals.(restaurant := Some(db.restaurants[c.req.params.id])))
    ensures s.Redirect? ==> s.path == IndexPath && s.ctx == FlashError(c, RestaurantNotFound)
    ensures s.Fail? ==> s.ctx == c && s.err.statusCode.None?
  {
    match FindRestaurant(db, badIds, c.req.params.id)
    case Failed(e) => Fail(c, e)
    case Absent => Redirect(FlashError(c, RestaurantNotFound), IndexPath)
    case Found(r) => Next(c.(locals := c.locals.(restaurant := Some(r))))
  }

  /** `is_existing_review`: the same three outcomes for `params.review_id`. */
  function IsExistingReview(db: Db, badIds: set<Id>, c: Ctx): (s: Step)
    ensures var id := c.req.params.reviewId;
      && (s.Next? <==> id !in badIds && id in db.reviews)
      && (s.Redirect? <==> id !in badIds && id !in db.reviews)
      && (s.Fail? <==> id in badIds)
    ensures s.Next? ==> s.ctx == c.(locals := c.locals.(review := Some(db.reviews[c.req.params.reviewId])))
    ensures s.Redirect? ==> s.path == IndexPath && s.ctx == FlashError(c, ReviewNotFound)
    ensures s.Fail? ==> s.ctx == c && s.err.statusCode.None?
  {
    match FindReview(db, badIds, c.req.params.reviewId)
    case Failed(e) => Fail(c, e)
    case Absent => Redirect(FlashError(c, ReviewNotFound), IndexPath)
    case Found(r) => Next(c.(locals := c.locals.(review := Some(r))))
  }

  // ------------------------------------------------------------- ownership

  /** The logged-in user is the recorded author of the resolved restaurant. */
  predicate OwnsRestaurant(c: Ctx)
  {
    c.session.user.Some? && c.locals.restaurant.Some?
    && c.locals.restaurant.value.author == c.session.user.value.id
  }

  /** The logged-in user is the recorded author of the resolved review. */
  predicate OwnsReview(c: Ctx)
  {
    c.session.user.Some? && c.locals.review.Some?
    && c.locals.review.value.author == c.session.user.value.id
  }

  /** The denial both author guards share: flash, then redirect to the
      resolved restaurant. Building that path reads `_id` of the resolved
      restaurant, so with none resolved the guard throws after flashing. */
  function Deny(c: Ctx): (s: Step)
    ensures s.ctx == FlashError(c, NoPermission)
    ensures c.locals.restaurant.Some? <==> s.Redirect?
    ensures s.Redirect? ==> s.path == ShowPath(c.locals.restaurant.value.id)
    ensures !s.Redirect? ==> s == Fail(s.ctx, ReadIdOfUndefined)
  {
    var c' := FlashError(c, NoPermission);
    match c.locals.restaurant
    case None => Fail(c', ReadIdOfUndefined)
    case Some(r) => Redirect(c', ShowPath(r.id))
  }

  /** `is_restaurant_author`: passes exactly when the user owns the resolved
      restaurant, and then changes nothing. */
  function IsRestaurantAuthor(c: Ctx): (s: Step)
    ensures s.Next? <==> OwnsRestaurant(c)
    ensures s.Next? ==> s.ctx == c
    ensures !s.Next? ==> s == Deny(c)
  {
    if OwnsRestaurant(c) then Next(c) else Deny(c)
  }

  /** `is_review_author`: passes exactly when the user owns the resolved
      review; a denial still redirects to the resolved restaurant. */
  function IsReviewAuthor(c: Ctx): (s: Step)
    ensures s.Next? <==> OwnsReview(c)
    ensures s.Next? ==> s.ctx == c
    ensures !s.Next? ==> s == Deny(c)
  {
    if OwnsReview(c) then Next(c) else Deny(c)
  }

  // ------------------------------------------------- third-party middleware

  /** `upload.array("images")`: stores the files and sets `req.files`, or
      forwards the upload error. A request that is not multipart is passed
      on untouched, so `req.files` stays undefined. */
  function Upload(env: Env, c: Ctx): (s: Step)
    ensures s.Next? <==> !env.upload.UploadFailed?
    ensures env.upload.Uploaded? ==> s == Next(c.(req := c.req.(files := Some(env.upload.files))))
    ensures env.upload.NotMultipart? ==> s == Next(c)
    ensures s.Fail? ==> s.ctx == c && s.err == env.upload.err
    ensures !s.Redirect?
  {
    match env.upload
    case Uploaded(fs) => Next(c.(req := c.req.(files := Some(fs))))
    case UploadFailed(e) => Fail(c, e)
    case NotMultipart => Next(c)
  }

  /** `passport.authenticate("local", {failureFlash, failureRedirect: "/login"})`.
      A success replaces the session with a fresh one holding the user; a
      rejection flashes the strategy's message and goes back to the login
      page; an error is forwarded. */
  function Authenticate(env: Env, c: Ctx): (s: Step)
    ensures s.Next? <==> env.auth.Authenticated?
    ensures s.Next? ==> s.ctx == c.(session := FreshSession(Some(env.auth.user)))
    ensures s.Redirect? <==> env.auth.Rejected?
    ensures s.Redirect? ==> s.path == LoginPath && s.ctx == FlashError(c, env.auth.message)
    ensures s.Fail? ==> s.ctx == c && s.err == env.auth.err
  {
    match env.auth
    case Authenticated(u) => Next(c.(session := FreshSession(Some(u))))
    case Rejected(m) => Redirect(FlashError(c, m), LoginPath)
    case AuthError(e) => Fail(c, e)
  }

  // ------------------------------------------------------------ the chain

  datatype Guard =
    | IsLoggedInGuard
    | StoreReturnToGuard
    | ValidateRestaurantGuard
    | IsExistingRestaurantGuard
    | IsRestaurantAuthorGuard
    | ValidateReviewGuard
    | IsExistingReviewGuard
    | IsReviewAuthorGuard
    | UploadGuard
    | AuthenticateGuard

  function RunGuard(g: Guard, db: Db, env: Env, c: Ctx): Step
  {
    match g
    case IsLoggedInGuard => IsLoggedIn(c)
    case StoreReturnToGuard => StoreReturnTo(c)
    case ValidateRestaurantGuard => ValidateRestaurant(c)
    case IsExistingRestaurantGuard => IsExistingRestaurant(db, env.badIds, c)
    case IsRestaurantAuthorGuard => IsRestaurantAuthor(c)
    case ValidateReviewGuard => ValidateReview(c)
    case IsExistingReviewGuard => IsExistingReview(db, env.badIds, c)
    case IsReviewAuthorGuard => IsReviewAuthor(c)
    case UploadGuard => Upload(env, c)
    case AuthenticateGuard => Authenticate(env, c)
  }

  /** Runs the guards left to right; the first one that does not call
      `next()` decides the outcome. */
  function RunChain(gs: seq<Guard>, db: Db, env: Env, c: Ctx): (s: Step)
    ensures s.ctx.req == c.req.(files := s.ctx.req.files)
    decreases |gs|
  {
    if gs == [] then Next(c)
    else match RunGuard(gs[0], db, env, c)
      case Next(c') => RunChain(gs[1..], db, env, c')
      case stop => stop
  }

  /** Running `a + b` is running `a`, then `b` on what `a` passed on. */
  lemma {:induction false} RunChainAppend(a: seq<Guard>, b: seq<Guard>, db: Db, env: Env, c: Ctx)
    ensures RunChain(a + b, db, env, c) ==
      match RunChain(a, db, env, c)
      case Next(c') => RunChain(b, db, env, c')
      case stop => stop
    decreases |a|
  {
    if a == [] {
      assert a + b == b;
    } else {
      assert (a + b)[0] == a[0];
      assert (a + b)[1..] == a[1..] + b;
      match RunGuard(a[0], db, env, c)
      case Next(c1) => RunChainAppend(a[1..], b, db, env, c1);
      case _ =>
    }
  }

  /** A chain stops only where one of its guards stops: the result of a
      stopped chain is the result of its first stopping guard, run on what
      the guards before it passed on. */
  lemma {:induction false} StopIsFirstStoppingGuard(gs: seq<Guard>, db: Db, env: Env, c: Ctx)
    requires !RunChain(gs, db, env, c).Next?
    ensures exists k :: (0 <= k < |gs| && RunChain(gs[..k], db, env, c).Next?
      && RunGuard(gs[k], db, env, RunChain(gs[..k], db, env, c).ctx) == RunChain(gs, db, env, c))
    decreases |gs|
  {
    assert gs != [];
    assert gs[..0] == [];
    match RunGuard(gs[0], db, env, c)
    case Next(c1) =>
      StopIsFirstStoppingGuard(gs[1..], db, env, c1);
      var k :| 0 <= k < |gs[1..]| && RunChain(gs[1..][..k], db, env, c1).Next?
        && RunGuard(gs[1..][k], db, env, RunChain(gs[1..][..k], db, env, c1).ctx) == RunChain(gs[1..], db, env, c1);
      assert gs[..k + 1][0] == gs[0] && gs[..k + 1][1..] == gs[1..][..k];
      assert RunChain(gs[..k + 1], db, env, c) == RunChain(gs[1..][..k], db, env, c1);
    case _ =>
  }

  // ------------------------------------------- what a passed chain guarantees

  /** The fact about the request that guard `g` guarantees once it has
      passed (and, by `Compatible`, keeps guaranteeing afterwards). */
  predicate Holds(g: Guard, db: Db, env: Env, c: Ctx)
  {
    match g
    case IsLoggedInGuard => c.session.user.Some?
    case StoreReturnToGuard => true
    case ValidateRestaurantGuard => IsRestaurantPayload(c.req.body)
    case IsExistingRestaurantGuard =>
      c.req.params.id !in env.badIds && c.req.params.id in db.restaurants
      && c.locals.restaurant == Some(db.restaurants[c.req.params.id])
    case IsRestaurantAuthorGuard => OwnsRestaurant(c)
    case ValidateReviewGuard => IsReviewPayload(c.req.body)
    case IsExistingReviewGuard =>
      c.req.params.reviewId !in env.badIds && c.req.params.reviewId in db.reviews
      && c.locals.review == Some(db.reviews[c.req.params.reviewId])
    case IsReviewAuthorGuard => OwnsReview(c)
    case UploadGuard => !env.upload.UploadFailed? && (env.upload.Uploaded? ==> c.req.files == Some(env.upload.files))
    case AuthenticateGuard => env.auth.Authenticated? && c.session.user == Some(env.auth.user)
  }

  /** `h` may run after `g` without undoing what `g` established: only a
      re-resolution or a new login can invalidate an ownership check. */
  predicate Compatible(g: Guard, h: Guard)
  {
    !((g == IsRestaurantAuthorGuard || g == IsReviewAuthorGuard)
      && (h == IsExistingRestaurantGuard || h == IsExistingReviewGuard || h == AuthenticateGuard))
  }

  predicate Ordered(gs: seq<Guard>)
  {
    forall i, j | 0 <= i < j < |gs| :: Compatible(gs[i], gs[j])
  }

  /** A guard that passes establishes its fact. */
  lemma GuardEstablishes(g: Guard, db: Db, env: Env, c: Ctx)
    requires RunGuard(g, db, env, c).Next?
    ensures Holds(g, db, env, RunGuard(g, db, env, c).ctx)
  {
  }

  /** A later, compatible guard that passes keeps an earlier guard's fact. */
  lemma GuardPreserves(g: Guard, h: Guard, db: Db, env: Env, c: Ctx)
    requires Compatible(g, h) && Holds(g, db, env, c)
    requires RunGuard(h, db, env, c).Next?
    ensures Holds(g, db, env, RunGuard(h, db, env, c).ctx)
  {
  }

  lemma {:induction false} ChainPreserves(g: Guard, gs: seq<Guard>, db: Db, env: Env, c: Ctx)
    requires forall j | 0 <= j < |gs| :: Compatible(g, gs[j])
    requires Holds(g, db, env, c)
    requires RunChain(gs, db, env, c).Next?
    ensures Holds(g, db, env, RunChain(gs, db, env, c).ctx)
    decreases |gs|
  {
    if gs != [] {
      GuardPreserves(g, gs[0], db, env, c);
      var c1 := RunGuard(gs[0], db, env, c).ctx;
      ChainPreserves(g, gs[1..], db, env, c1);
    }
  }

  /** When an ordered chain passes, every one of its guards' facts holds of
      the context it hands to the route handler. */
  lemma {:induction false} ChainEstablishes(gs: seq<Guard>, db: Db, env: Env, c: Ctx)
    requires Ordered(gs)
    requires RunChain(gs, db, env, c).Next?
    ensures forall i | 0 <= i < |gs| :: Holds(gs[i], db, env, RunChain(gs, db, env, c).ctx)
    decreases |gs|
  {
    if gs != [] {
      var c1 := RunGuard(gs[0], db, env, c).ctx;
      GuardEstablishes(gs[0], db, env, c);
      ChainPreserves(gs[0], gs[1..], db, env, c1);
      ChainEstablishes(gs[1..], db, env, c1);
      forall i | 0 <= i < |gs|
        ensures Holds(gs[i], db, env, RunChain(gs, db, env, c).ctx)
      {
        if i > 0 {
          assert gs[i] == gs[1..][i - 1];
        }
      }
    }
  }
}
