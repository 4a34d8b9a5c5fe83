/** The handlers at the end of the restaurant routes. Each runs only after
    its guard chain passed; its `requires` are what those guards establish. */
module RestaurantRoutes {
  import opened Base
  import opened ExpressErrors
  import opened ValidationSchemas
  import opened Models
  import opened Context
  import opened Middleware

  const Created: string := "Successfully created a new restaurant!"
  const Updated: string := "Successfully updated the restaurant!"
  const Deleted: string := "Successfully deleted the restaurant!"

  /** `req.files.map(f => ({url: f.path, file_name: f.filename}))`. */
  function ImagesOf(files: seq<UploadedFile>): (images: seq<Image>)
    ensures |images| == |files|
    ensures forall i :: 0 <= i < |files| ==> images[i] == Image(files[i].path, files[i].filename)
  {
    if files == [] then [] else [Image(files[0].path, files[0].filename)] + ImagesOf(files[1..])
  }

  /** The document `new Restaurant(req.body.restaurant)` builds, with its
      author and images set. */
  function NewRestaurant(id: Id, f: RestaurantFields, author: Id, files: seq<UploadedFile>): Restaurant
  {
    Restaurant(id, f.title, f.location, f.price, f.description, ImagesOf(files), [], author)
  }

  /** GET `/restaurants`: lists every stored restaurant, and only those. */
  function Index(db: Db, c: Ctx): (r: Reply)
    ensures r.Replied? && r.db == db && r.ctx == c && r.log == []
    ensures r.response.Render? && r.response.view == "restaurants/index" && r.response.data.Listing?
    ensures forall id | id in db.restaurants :: db.restaurants[id] in r.response.data.restaurants
    ensures forall d | d in r.response.data.restaurants :: exists id | id in db.restaurants :: db.restaurants[id] == d
  {
    Page(db, c, "restaurants/index", Listing(db.restaurants.Values))
  }

  /** POST `/restaurants`: saves a restaurant owned by the logged-in user,
      with one image per uploaded file in upload order, then flashes and
      redirects to its page. Mapping an undefined `req.files` throws before
      anything is saved; saving under an id already in use fails. */
  function Create(db: Db, env: Env, c: Ctx): (r: Reply)
    requires c.session.user.Some? && IsRestaurantPayload(c.req.body)
    ensures r.Raised? <==> c.req.files.None? || env.freshId in db.restaurants
    ensures r.Raised? ==> r.db == db && r.err.statusCode.None?
    ensures c.req.files.None? ==> r.Raised? && r.err == ReadMapOfUndefined
    ensures r.Replied? ==> r.db.reviews == db.reviews
    ensures r.Replied? ==> r.db.restaurants.Keys == db.restaurants.Keys + {env.freshId}
    ensures r.Replied? ==> forall k | k in db.restaurants :: r.db.restaurants[k] == db.restaurants[k]
    ensures r.Replied? ==>
      var n := r.db.restaurants[env.freshId];
      && n.id == env.freshId && n.author == c.session.user.value.id
      && RestaurantFields(n.title, n.location, n.price, n.description) == DecodeRestaurant(c.req.body)
      && var files := c.req.files.value;
      && |n.images| == |files|
      && (forall i | 0 <= i < |files| :: n.images[i].url == files[i].path && n.images[i].fileName == files[i].filename)
      && n.reviews == []
    ensures r.Replied? ==> r.response == RedirectTo(ShowPath(env.freshId)) && r.ctx == FlashSuccess(c, Created) && r.log == []
  {
    match c.req.files
    case None => Raised(db, c, ReadMapOfUndefined)
    case Some(files) =>
      if env.freshId in db.restaurants then Raised(db, c, DuplicateKeyError(env.freshId))
      else
        var doc := NewRestaurant(env.freshId, DecodeRestaurant(c.req.body), c.session.user.value.id, files);
        Replied(db.(restaurants := db.restaurants[env.freshId := doc]), FlashSuccess(c, Created),
                RedirectTo(ShowPath(env.freshId)), [])
  }

  /** GET `/restaurants/:id` and GET `/restaurants/:id/edit`: renders
      `view` for the restaurant the chain resolved, writing nothing. */
  function Show(db: Db, c: Ctx, view: string): (r: Reply)
    requires c.locals.restaurant.Some?
    ensures r.Replied? && r.db == db && r.ctx == c && r.log == []
    ensures r.response == Render(view, Detail(c.locals.restaurant.value))
  {
    Page(db, c, view, Detail(c.locals.restaurant.value))
  }

  /** The document after `findByIdAndUpdate(id, req.body.restaurant)`: the
      four form fields change, nothing else does. */
  function WithFields(doc: Restaurant, f: RestaurantFields): (d: Restaurant)
    ensures d.id == doc.id && d.author == doc.author && d.images == doc.images && d.reviews == doc.reviews
    ensures RestaurantFields(d.title, d.location, d.price, d.description) == f
  {
    doc.(title := f.title, location := f.location, price := f.price, description := f.description)
  }

  /** PUT `/restaurants/:id`: writes the form fields to the restaurant with
      that id, then flashes and redirects to its page. */
  function Update(db: Db, c: Ctx): (r: Reply)
    requires IsRestaurantPayload(c.req.body)
    ensures r.Replied? && r.db.reviews == db.reviews && r.log == []
    ensures r.db.restaurants.Keys == db.restaurants.Keys
    ensures forall k | k in db.restaurants && k != c.req.params.id :: r.db.restaurants[k] == db.restaurants[k]
    ensures c.req.params.id in db.restaurants ==>
      r.db.restaurants[c.req.params.id] == WithFields(db.restaurants[c.req.params.id], DecodeRestaurant(c.req.body))
    ensures r.response == RedirectTo(ShowPath(c.req.params.id)) && r.ctx == FlashSuccess(c, Updated)
  {
    var id := c.req.params.id;
    var db' := if id in db.restaurants
      then db.(restaurants := db.restaurants[id := WithFields(db.restaurants[id], DecodeRestaurant(c.req.body))])
      else db;
    Replied(db', FlashSuccess(c, Updated), RedirectTo(ShowPath(id)), [])
  }

  /** DELETE `/restaurants/:id`: deletes the restaurant (and, through the
      hook, its reviews and images), then flashes and goes to the index. */
  function Delete(db: Db, c: Ctx): (r: Reply)
    ensures r.Replied?
    ensures (r.db, r.log) == FindByIdAndDelete(db, c.req.params.id)
    ensures r.response == RedirectTo(IndexPath) && r.ctx == FlashSuccess(c, Deleted)
  {
    var (db', log) := FindByIdAndDelete(db, c.req.params.id);
    Replied(db', FlashSuccess(c, Deleted), RedirectTo(IndexPath), log)
  }
}
