/** The persisted documents and the store operations the routes use: lookup
    by id, pull of an id from a review list, and delete-by-id with the
    post-delete cascade over reviews and images. */
module Models {
  import opened Base
  import opened ExpressErrors

  /** A hosted image: its public url and the storage key used to destroy it. */
  datatype Image = Image(url: string, fileName: string)

  datatype Restaurant = Restaurant(
    id: Id,
    title: string,
    location: string,
    price: real,
    description: string,
    images: seq<Image>,
    reviews: seq<Id>,
    author: Id)

  datatype Review = Review(id: Id, rating: real, body: string, author: Id)

  datatype User = User(id: Id, username: string, email: string)

  /** The two document collections, keyed by `_id`. */
  datatype Db = Db(restaurants: map<Id, Restaurant>, reviews: map<Id, Review>)

  /** Every document is stored under its own id. */
  predicate WellFormed(db: Db)
  {
    && (forall k | k in db.restaurants :: db.restaurants[k].id == k)
    && (forall k | k in db.reviews :: db.reviews[k].id == k)
  }

  /** The three outcomes of `findById`: a document, null, or a thrown error. */
  datatype Lookup<T> = Found(doc: T) | Absent | Failed(err: Error)

  /** `Restaurant.findById(id)`. Ids in `badIds` are those the store cannot
      cast to an ObjectId; it throws for them before looking anything up. */
  function FindRestaurant(db: Db, badIds: set<Id>, id: Id): (r: Lookup<Restaurant>)
    ensures r.Failed? <==> id in badIds
    ensures r.Found? <==> id !in badIds && id in db.restaurants
    ensures r.Found? ==> r.doc == db.restaurants[id]
    ensures r.Failed? ==> r.err.statusCode.None?
  {
    if id in badIds then Failed(CastError(id, "Restaurant"))
    else if id in db.restaurants then Found(db.restaurants[id])
    else Absent
  }

  /** `Review.findById(id)`. */
  function FindReview(db: Db, badIds: set<Id>, id: Id): (r: Lookup<Review>)
    ensures r.Failed? <==> id in badIds
    ensures r.Found? <==> id !in badIds && id in db.reviews
    ensures r.Found? ==> r.doc == db.reviews[id]
    ensures r.Failed? ==> r.err.statusCode.None?
  {
    if id in badIds then Failed(CastError(id, "Review"))
    else if id in db.reviews then Found(db.reviews[id])
    else Absent
  }

  // ---------------------------------------------------------------- $pull

  /** `$pull: {reviews: x}`: removes every occurrence of `x`, keeping the
      other ids with their multiplicities. */
  function Pull(xs: seq<Id>, x: Id): (r: seq<Id>)
    ensures multiset(r) == multiset(xs)[x := 0]
    ensures x !in r
  {
    if xs == [] then []
    else
      assert xs == [xs[0]] + xs[1..];
      assert multiset(xs) == multiset{xs[0]} + multiset(xs[1..]);
      if xs[0] == x then Pull(xs[1..], x)
      else [xs[0]] + Pull(xs[1..], x)
  }

  /** Pulling distributes over concatenation, so the ids left behind keep
      their relative order. */
  lemma {:induction false} PullAppend(a: seq<Id>, b: seq<Id>, x: Id)
    ensures Pull(a + b, x) == Pull(a, x) + Pull(b, x)
  {
    if a == [] {
      assert a + b == b;
    } else {
      assert (a + b)[0] == a[0];
      assert (a + b)[1..] == a[1..] + b;
      PullAppend(a[1..], b, x);
    }
  }

  /** Pulling an id the list does not hold changes nothing. */
  lemma {:induction false} PullAbsent(xs: seq<Id>, x: Id)
    requires x !in xs
    ensures Pull(xs, x) == xs
  {
    if xs != [] {
      assert xs[0] != x;
      assert x !in xs[1..];
      PullAbsent(xs[1..], x);
    }
  }

  // ------------------------------------------------------- delete and cascade

  /** The side effects of the delete hook, in the order they are issued:
      a bulk review delete and calls to the image host. */
  datatype Effect =
    | DeleteReviews(ids: set<Id>)
    | DestroyImage(fileName: string, invalidate: bool)

  /** `cloudinary.uploader.destroy(image.file_name, {invalidate: true})` for
      each image, in order. */
  function DestroyCalls(images: seq<Image>): (calls: seq<Effect>)
    ensures |calls| == |images|
    ensures forall i :: 0 <= i < |images| ==> calls[i] == DestroyImage(images[i].fileName, true)
  {
    if images == [] then []
    else [DestroyImage(images[0].fileName, true)] + DestroyCalls(images[1..])
  }

  function IdSet(ids: seq<Id>): set<Id>
  {
    set x | x in ids
  }

  /** The post-`findOneAndDelete` hook: nothing for a null document;
      otherwise delete every listed review, then destroy every image. */
  function AfterDelete(db: Db, deleted: Option<Restaurant>): (r: (Db, seq<Effect>))
    ensures deleted.None? ==> r == (db, [])
    ensures r.0.restaurants == db.restaurants
    ensures deleted.Some? ==> r.0.reviews.Keys == db.reviews.Keys - IdSet(deleted.value.reviews)
    ensures forall k | k in r.0.reviews :: k in db.reviews && r.0.reviews[k] == db.reviews[k]
    ensures deleted.Some? ==> r.1 == [DeleteReviews(IdSet(deleted.value.reviews))] + DestroyCalls(deleted.value.images)
  {
    match deleted
    case None => (db, [])
    case Some(doc) =>
      var gone := IdSet(doc.reviews);
      (db.(reviews := db.reviews - gone), [DeleteReviews(gone)] + DestroyCalls(doc.images))
  }

  /** `Restaurant.findByIdAndDelete(id)` followed by its post hook. */
  function FindByIdAndDelete(db: Db, id: Id): (r: (Db, seq<Effect>))
    ensures r.0.restaurants == db.restaurants - {id}
    ensures id !in db.restaurants ==> r == (db.(restaurants := db.restaurants - {id}), [])
    ensures id in db.restaurants ==> r.0.reviews == db.reviews - IdSet(db.restaurants[id].reviews)
    ensures id in db.restaurants ==> r.1 == [DeleteReviews(IdSet(db.restaurants[id].reviews))] + DestroyCalls(db.restaurants[id].images)
  {
    var deleted := if id in db.restaurants then Some(db.restaurants[id]) else None;
    AfterDelete(db.(restaurants := db.restaurants - {id}), deleted)
  }

  /** Removing a restaurant and its listed reviews keeps every remaining
      document under its own id. */
  lemma DeleteKeepsWellFormed(db: Db, id: Id)
    requires WellFormed(db)
    ensures WellFormed(FindByIdAndDelete(db, id).0)
  {
  }
}
