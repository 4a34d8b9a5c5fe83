/** The two request-body schemas, as predicates over an abstract parsed body
    plus the list of violation messages a schema check reports. */
module ValidationSchemas {
  import opened Base

  /** A parsed request body. Numbers are taken after form-field coercion;
      arrays, booleans and null are all `Other`. */
  datatype Value = Str(s: string) | Num(n: real) | Obj(fields: map<string, Value>) | Other

  /** Joi reports only the first violation by default (early abort). */
  const AbortEarly: bool := true

  /** A message that opens with a quoted label, hence never empty. */
  predicate Labelled(m: string)
  {
    |m| > 0 && m[0] == '"'
  }

  /** A violation message: the quoted path, then what is wrong with it. */
  function Message(path: string, text: string): (m: string)
    ensures Labelled(m)
  {
    "\"" + path + "\"" + text
  }

  function RequiredMessage(path: string): string
  {
    Message(path, " is required")
  }

  function Get(fields: map<string, Value>, key: string): Option<Value>
  {
    if key in fields then Some(fields[key]) else None
  }

  /** A required, non-empty string at `key`. */
  predicate IsText(fields: map<string, Value>, key: string)
  {
    key in fields && fields[key].Str? && fields[key].s != ""
  }

  /** `Number.MAX_SAFE_INTEGER`, 2^53 - 1. */
  const MaxSafeInteger: nat := 0x1F_FFFF_FFFF_FFFF

  /** Joi's numbers are unsafe by default beyond `±Number.MAX_SAFE_INTEGER`. */
  predicate IsSafe(n: real)
  {
    -(MaxSafeInteger as real) <= n <= MaxSafeInteger as real
  }

  /** A required, safe number at `key` within `[lo, hi]` (no upper bound when
      `hi` is None). */
  predicate IsNumberIn(fields: map<string, Value>, key: string, lo: nat, hi: Option<nat>)
  {
    && key in fields && fields[key].Num? && IsSafe(fields[key].n)
    && lo as real <= fields[key].n && (hi.Some? ==> fields[key].n <= hi.value as real)
  }

  /** Violations of a required string field, in the order they are checked. */
  function StringViolations(path: string, v: Option<Value>): (r: seq<string>)
    ensures r == [] <==> v.Some? && v.value.Str? && v.value.s != ""
    ensures |r| <= 1
    ensures forall i | 0 <= i < |r| :: Labelled(r[i])
  {
    match v
    case None => [RequiredMessage(path)]
    case Some(Str(s)) => if s == "" then [Message(path, " is not allowed to be empty")] else []
    case Some(_) => [Message(path, " must be a string")]
  }

  /** Violations of a required number field with a minimum and an optional
      maximum. The type's own safe-number check comes before the rules. */
  function NumberViolations(path: string, v: Option<Value>, lo: nat, hi: Option<nat>): (r: seq<string>)
    ensures r == [] <==> v.Some? && v.value.Num? && IsSafe(v.value.n) && lo as real <= v.value.n && (hi.Some? ==> v.value.n <= hi.value as real)
    ensures |r| <= 1
    ensures forall i | 0 <= i < |r| :: Labelled(r[i])
  {
    match v
    case None => [RequiredMessage(path)]
    case Some(Num(n)) =>
      if !IsSafe(n) then [Message(path, " must be a safe number")]
      else if n < lo as real then [Message(path, " must be greater than or equal to " + DecimalText(lo))]
      else if hi.Some? && n > hi.value as real then [Message(path, " must be less than or equal to " + DecimalText(hi.value))]
      else []
    case Some(_) => [Message(path, " must be a number")]
  }

  /** Decimal digits of a schema bound. */
  function DecimalText(n: nat): string
  {
    var d := ["0", "1", "2", "3", "4", "5", "6", "7", "8", "9"][n % 10];
    if n < 10 then d else DecimalText(n / 10) + d
  }

  function NotAllowedMessage(path: string): string
  {
    Message(path, " is not allowed")
  }

  /** Every key of `fields` is one the schema declares: object schemas are
      closed unless they say otherwise. */
  predicate Closed(fields: map<string, Value>, declared: set<string>)
  {
    fields.Keys <= declared
  }

  /** One "is not allowed" message per undeclared key, the keys taken in
      lexicographic order; `prefix` is the path of the enclosing object. */
  function NotAllowed(prefix: string, keys: set<string>): (r: seq<string>)
    ensures |r| == |keys|
    ensures forall k | k in keys :: NotAllowedMessage(prefix + k) in r
    ensures forall i | 0 <= i < |r| :: Labelled(r[i])
    decreases |keys|
  {
    if keys == {} then []
    else
      var k := Least(keys);
      [NotAllowedMessage(prefix + k)] + NotAllowed(prefix, keys - {k})
  }

  /** The violations for the keys of `fields` outside `declared`: none
      exactly when the object is closed, one per undeclared key. */
  function Undeclared(prefix: string, fields: map<string, Value>, declared: set<string>): (r: seq<string>)
    ensures r == [] <==> Closed(fields, declared)
    ensures forall k | k in fields && k !in declared :: NotAllowedMessage(prefix + k) in r
    ensures forall i | 0 <= i < |r| :: Labelled(r[i])
  {
    assert Closed(fields, declared) || fields.Keys - declared != {} by {
      if !Closed(fields, declared) {
        var k :| k in fields.Keys && k !in declared;
        assert k in fields.Keys - declared;
      }
    }
    NotAllowed(prefix, fields.Keys - declared)
  }

  /** The fields of the object nested under `key`, or none when there is no
      such object. */
  function Inner(body: Value, key: string): map<string, Value>
  {
    if body.Obj? && key in body.fields && body.fields[key].Obj? then body.fields[key].fields else map[]
  }

  /** The body is an object holding exactly one key, `key`, whose value is
      an object. */
  predicate WellWrapped(body: Value, key: string)
  {
    body.Obj? && key in body.fields && body.fields[key].Obj? && Closed(body.fields, {key})
  }

  /** Violations of the outer schema `{key: <object>.required()}`, given the
      violations `inner` of the nested object. The nested key is checked
      before the keys the outer schema does not declare. */
  function Wrapped(body: Value, key: string, inner: seq<string>): (r: seq<string>)
    requires forall i | 0 <= i < |inner| :: Labelled(inner[i])
    ensures r == [] <==> WellWrapped(body, key) && inner == []
    ensures forall i | 0 <= i < |r| :: Labelled(r[i])
  {
    if !body.Obj? then [Message("value", " must be of type object")]
    else
      var own :=
        if key !in body.fields then [RequiredMessage(key)]
        else if !body.fields[key].Obj? then [Message(key, " must be of type object")]
        else inner;
      own + Undeclared("", body.fields, {key})
  }

  // ---------------------------------------------------------------- restaurant

  /** The keys the nested restaurant object declares. */
  const RestaurantKeys: set<string> := {"title", "location", "price", "description"}

  /** The restaurant payload the schema accepts: `{restaurant: {title,
      location, price >= 0, description}}` and no other key at either level. */
  predicate IsRestaurantPayload(body: Value)
  {
    WellWrapped(body, "restaurant") && RestaurantFieldsAccepted(body.fields["restaurant"].fields)
  }

  predicate RestaurantFieldsAccepted(f: map<string, Value>)
  {
    RestaurantDeclaredAccepted(f) && Closed(f, RestaurantKeys)
  }

  predicate RestaurantDeclaredAccepted(f: map<string, Value>)
  {
    && IsText(f, "title") && IsText(f, "location")
    && IsNumberIn(f, "price", 0, None) && IsText(f, "description")
  }

  /** Violations of the declared restaurant keys, in declaration order. */
  function RestaurantDeclaredViolations(f: map<string, Value>): (v: seq<string>)
    ensures v == [] <==> RestaurantDeclaredAccepted(f)
    ensures forall i | 0 <= i < |v| :: Labelled(v[i])
  {
    StringViolations("restaurant.title", Get(f, "title"))
    + StringViolations("restaurant.location", Get(f, "location"))
    + NumberViolations("restaurant.price", Get(f, "price"), 0, None)
    + StringViolations("restaurant.description", Get(f, "description"))
  }

  /** Violations of the nested restaurant object: declared keys first, then
      the undeclared ones. */
  function RestaurantFieldViolations(f: map<string, Value>): (v: seq<string>)
    ensures v == [] <==> RestaurantFieldsAccepted(f)
    ensures forall i | 0 <= i < |v| :: Labelled(v[i])
  {
    RestaurantDeclaredViolations(f) + Undeclared("restaurant.", f, RestaurantKeys)
  }

  /** All violations of the restaurant schema, in the order they are found. */
  function RestaurantViolations(body: Value): (v: seq<string>)
    ensures v == [] <==> IsRestaurantPayload(body)
    ensures forall i | 0 <= i < |v| :: Labelled(v[i])
  {
    var f := Inner(body, "restaurant");
    Wrapped(body, "restaurant", RestaurantFieldViolations(f))
  }

  datatype RestaurantFields = RestaurantFields(title: string, location: string, price: real, description: string)

  /** The field values a well-formed payload would carry. */
  predicate ValidRestaurantFields(f: RestaurantFields)
  {
    f.title != "" && f.location != "" && 0.0 <= f.price <= MaxSafeInteger as real && f.description != ""
  }

  function DecodeRestaurant(body: Value): (f: RestaurantFields)
    requires IsRestaurantPayload(body)
    ensures ValidRestaurantFields(f)
  {
    var m := body.fields["restaurant"].fields;
    RestaurantFields(m["title"].s, m["location"].s, m["price"].n, m["description"].s)
  }

  function EncodeRestaurant(f: RestaurantFields): Value
  {
    Obj(map["restaurant" := Obj(map["title" := Str(f.title), "location" := Str(f.location),
                                    "price" := Num(f.price), "description" := Str(f.description)])])
  }

  /** A form built from field values passes the schema exactly when those
      values are valid, and decodes back to the same values. */
  lemma RestaurantRoundTrip(f: RestaurantFields)
    ensures IsRestaurantPayload(EncodeRestaurant(f)) <==> ValidRestaurantFields(f)
    ensures ValidRestaurantFields(f) ==> DecodeRestaurant(EncodeRestaurant(f)) == f
  {
    var m := EncodeRestaurant(f).fields["restaurant"].fields;
    assert m["title"] == Str(f.title) && m["location"] == Str(f.location);
    assert m["price"] == Num(f.price) && m["description"] == Str(f.description);
  }

  /** With a nested object present, the nested object's violations come
      first and the outer undeclared keys after them. */
  lemma RestaurantViolationsSplit(body: Value)
    requires body.Obj? && "restaurant" in body.fields && body.fields["restaurant"].Obj?
    ensures RestaurantViolations(body)
         == RestaurantFieldViolations(body.fields["restaurant"].fields) + Undeclared("", body.fields, {"restaurant"})
  {
    assert Inner(body, "restaurant") == body.fields["restaurant"].fields;
  }

  /** A missing restaurant field is reported with its own "is required"
      message in the full violation list. */
  lemma MissingRestaurantFieldReported(body: Value, key: string)
    requires body.Obj? && "restaurant" in body.fields && body.fields["restaurant"].Obj?
    requires key in RestaurantKeys
    requires key !in body.fields["restaurant"].fields
    ensures RequiredMessage("restaurant." + key) in RestaurantViolations(body)
  {
    var f := body.fields["restaurant"].fields;
    RestaurantViolationsSplit(body);
    MissingDeclaredReported(f, key);
  }

  lemma MissingDeclaredReported(f: map<string, Value>, key: string)
    requires key in RestaurantKeys && key !in f
    ensures RequiredMessage("restaurant." + key) in RestaurantDeclaredViolations(f)
  {
    var t := StringViolations("restaurant.title", Get(f, "title"));
    var l := StringViolations("restaurant.location", Get(f, "location"));
    var p := NumberViolations("restaurant.price", Get(f, "price"), 0, None);
    var d := StringViolations("restaurant.description", Get(f, "description"));
    assert RestaurantDeclaredViolations(f) == t + l + p + d;
    if key == "title" {
      assert "restaurant." + key == "restaurant.title";
      assert RequiredMessage("restaurant.title") in t;
    } else if key == "location" {
      assert "restaurant." + key == "restaurant.location";
      assert RequiredMessage("restaurant.location") in l;
    } else if key == "price" {
      assert "restaurant." + key == "restaurant.price";
      assert RequiredMessage("restaurant.price") in p;
    } else {
      assert "restaurant." + key == "restaurant.description";
      assert RequiredMessage("restaurant.description") in d;
    }
  }

  /** A key the restaurant schema does not declare, at either level, makes
      the payload invalid and is reported as not allowed under its full path. */
  lemma UnknownRestaurantKeyReported(body: Value, key: string)
    requires body.Obj? && "restaurant" in body.fields && body.fields["restaurant"].Obj?
    ensures key in body.fields && key != "restaurant" ==>
      !IsRestaurantPayload(body) && NotAllowedMessage(key) in RestaurantViolations(body)
    ensures key in body.fields["restaurant"].fields && key !in RestaurantKeys ==>
      !IsRestaurantPayload(body) && NotAllowedMessage("restaurant." + key) in RestaurantViolations(body)
  {
    var f := body.fields["restaurant"].fields;
    var v := RestaurantFieldViolations(f);
    var u := Undeclared("restaurant.", f, RestaurantKeys);
    var o := Undeclared("", body.fields, {"restaurant"});
    RestaurantViolationsSplit(body);
    if key in body.fields && key != "restaurant" {
      assert "" + key == key;
      assert NotAllowedMessage(key) in o;
    }
    if key in f && key !in RestaurantKeys {
      assert NotAllowedMessage("restaurant." + key) in u;
      assert v == (v[..|v| - |u|]) + u;
    }
  }

  /** A price beyond `Number.MAX_SAFE_INTEGER` fails the number type itself,
      before its minimum is looked at. */
  lemma UnsafePriceReported(body: Value)
    requires body.Obj? && "restaurant" in body.fields && body.fields["restaurant"].Obj?
    requires var f := body.fields["restaurant"].fields;
      "price" in f && f["price"].Num? && f["price"].n > MaxSafeInteger as real
    ensures !IsRestaurantPayload(body)
    ensures Message("restaurant.price", " must be a safe number") in RestaurantViolations(body)
  {
    var f := body.fields["restaurant"].fields;
    var t := StringViolations("restaurant.title", Get(f, "title"));
    var l := StringViolations("restaurant.location", Get(f, "location"));
    var p := NumberViolations("restaurant.price", Get(f, "price"), 0, None);
    var d := StringViolations("restaurant.description", Get(f, "description"));
    RestaurantViolationsSplit(body);
    assert RestaurantDeclaredViolations(f) == t + l + p + d;
    assert p == [Message("restaurant.price", " must be a safe number")];
    assert RestaurantFieldViolations(f) == (t + l + p + d) + Undeclared("restaurant.", f, RestaurantKeys);
  }

  // -------------------------------------------------------------------- review

  /** The keys the nested review object declares. */
  const ReviewKeys: set<string> := {"rating", "body"}

  /** The review payload the schema accepts: `{review: {rating in [1, 5], body}}`
      and no other key at either level. No integer constraint is declared on
      the rating. */
  predicate IsReviewPayload(body: Value)
  {
    WellWrapped(body, "review") && ReviewFieldsAccepted(body.fields["review"].fields)
  }

  predicate ReviewFieldsAccepted(f: map<string, Value>)
  {
    ReviewDeclaredAccepted(f) && Closed(f, ReviewKeys)
  }

  predicate ReviewDeclaredAccepted(f: map<string, Value>)
  {
    IsNumberIn(f, "rating", 1, Some(5)) && IsText(f, "body")
  }

  /** Violations of the declared review keys, in declaration order. */
  function ReviewDeclaredViolations(f: map<string, Value>): (v: seq<string>)
    ensures v == [] <==> ReviewDeclaredAccepted(f)
    ensures forall i | 0 <= i < |v| :: Labelled(v[i])
  {
    NumberViolations("review.rating", Get(f, "rating"), 1, Some(5))
    + StringViolations("review.body", Get(f, "body"))
  }

  /** Violations of the nested review object: declared keys first, then the
      undeclared ones. */
  function ReviewFieldViolations(f: map<string, Value>): (v: seq<string>)
    ensures v == [] <==> ReviewFieldsAccepted(f)
    ensures forall i | 0 <= i < |v| :: Labelled(v[i])
  {
    ReviewDeclaredViolations(f) + Undeclared("review.", f, ReviewKeys)
  }

  /** All violations of the review schema, in the order they are found. */
  function ReviewViolations(body: Value): (v: seq<string>)
    ensures v == [] <==> IsReviewPayload(body)
    ensures forall i | 0 <= i < |v| :: Labelled(v[i])
  {
    var f := Inner(body, "review");
    Wrapped(body, "review", ReviewFieldViolations(f))
  }

  datatype ReviewFields = ReviewFields(rating: real, body: string)

  predicate ValidReviewFields(f: ReviewFields)
  {
    1.0 <= f.rating <= 5.0 && f.body != ""
  }

  function DecodeReview(body: Value): (f: ReviewFields)
    requires IsReviewPayload(body)
    ensures ValidReviewFields(f)
  {
    var m := body.fields["review"].fields;
    ReviewFields(m["rating"].n, m["body"].s)
  }

  function EncodeReview(f: ReviewFields): Value
  {
    Obj(map["review" := Obj(map["rating" := Num(f.rating), "body" := Str(f.body)])])
  }

  lemma ReviewRoundTrip(f: ReviewFields)
    ensures IsReviewPayload(EncodeReview(f)) <==> ValidReviewFields(f)
    ensures ValidReviewFields(f) ==> DecodeReview(EncodeReview(f)) == f
  {
    var m := EncodeReview(f).fields["review"].fields;
    assert m["rating"] == Num(f.rating) && m["body"] == Str(f.body);
  }

  /** A fractional rating inside the range passes: the schema has no
      integer constraint. */
  lemma FractionalRatingAccepted()
    ensures ReviewViolations(EncodeReview(ReviewFields(2.5, "ok"))) == []
  {
    ReviewRoundTrip(ReviewFields(2.5, "ok"));
  }

  // ----------------------------------------------------------------- reporting

  /** The violations Joi reports by default: only the first one under
      early abort, all of them otherwise. */
  function Reported(violations: seq<string>, abortEarly: bool): (r: seq<string>)
    ensures r == [] <==> violations == []
    ensures abortEarly && violations != [] ==> r == [violations[0]]
    ensures !abortEarly ==> r == violations
  {
    if abortEarly && violations != [] then [violations[0]] else violations
  }
}
