/** The handlers at the end of the review routes, nested under a restaurant. */
module ReviewRoutes {
  import opened Base
  import opened ExpressErrors
  import opened ValidationSchemas
  import opened Models
  import opened Context
  import opened Middleware

  const Created: string := "Successfully created a new review!"
  const Deleted: string := "Successfully deleted the review!"

  /** POST `/restaurants/:id/reviews`: appends the new review's id to the
      resolved restaurant and saves it, then saves the review, authored by
      the logged-in user. Saving a review under an id in use fails after the
      restaurant was already saved. */
  function Create(db: Db, env: Env, c: Ctx): (r: Reply)
    requires c.session.user.Some? && c.locals.restaurant.Some? && IsReviewPayload(c.req.body)
    ensures var doc := c.locals.restaurant.value;
      r.db.restaurants == db.restaurants[doc.id := doc.(reviews := doc.reviews + [env.freshId])]
    ensures r.Raised? <==> env.freshId in db.reviews
    ensures r.Raised? ==> r.db.reviews == db.reviews && r.err.statusCode.None?
    ensures r.Replied? ==>
      && r.db.reviews.Keys == db.reviews.Keys + {env.freshId}
      && (forall k | k in db.reviews :: r.db.reviews[k] == db.reviews[k])
      && var f := DecodeReview(c.req.body);
         r.db.reviews[env.freshId] == Review(env.freshId, f.rating, f.body, c.session.user.value.id)
    ensures r.Replied? ==> r.response == RedirectTo(ShowPath(c.req.params.id)) && r.ctx == FlashSuccess(c, Created) && r.log == []
  {
    var doc := c.locals.restaurant.value;
    var db1 := db.(restaurants := db.restaurants[doc.id := doc.(reviews := doc.reviews + [env.freshId])]);
    if env.freshId in db.reviews then Raised(db1, c, DuplicateKeyError(env.freshId))
    else
      var f := DecodeReview(c.req.body);
      var review := Review(env.freshId, f.rating, f.body, c.session.user.value.id);
      Replied(db1.(reviews := db1.reviews[env.freshId := review]), FlashSuccess(c, Created),
              RedirectTo(ShowPath(c.req.params.id)), [])
  }

  /** DELETE `/restaurants/:id/reviews/:review_id`: pulls every occurrence of
      the review id from the restaurant, then deletes the review record. The
      review need not belong to that restaurant. */
  function Delete(db: Db, c: Ctx): (r: Reply)
    ensures r.Replied? && r.log == []
    ensures r.db.reviews == db.reviews - {c.req.params.reviewId}
    ensures r.db.restaurants.Keys == db.restaurants.Keys
    ensures forall k | k in db.restaurants && k != c.req.params.id :: r.db.restaurants[k] == db.restaurants[k]
    ensures c.req.params.id in db.restaurants ==>
      var doc := db.restaurants[c.req.params.id];
      r.db.restaurants[c.req.params.id] == doc.(reviews := Pull(doc.reviews, c.req.params.reviewId))
    ensures r.response == RedirectTo(ShowPath(c.req.params.id)) && r.ctx == FlashSuccess(c, Deleted)
  {
    var id := c.req.params.id;
    var rid := c.req.params.reviewId;
    var restaurants := if id in db.restaurants
      then db.restaurants[id := db.restaurants[id].(reviews := Pull(db.restaurants[id].reviews, rid))]
      else db.restaurants;
    Replied(Db(restaurants, db.reviews - {rid}), FlashSuccess(c, Deleted), RedirectTo(ShowPath(id)), [])
  }
}
