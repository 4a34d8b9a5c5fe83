# RestoFind request guards

A Dafny model of how the RestoFind Express application decides what a
request may do. It covers the guard middleware, the restaurant, review and
account routes that chain them, the restaurant delete hook, the two Joi
schemas, `ExpressError`, and the parts of `app.js` every request passes:
the flash/current-user prelude, router order, the 404 catch-all and the
terminal error handler.

The world is immutable data:
- a store `Db` maps restaurant ids to restaurants and review ids to reviews;
- a `Session` holds the logged-in user, `return_to` and the flash lists;
- per-request `Locals` hold the drained flashes, the current user, the
  resolved restaurant and review, and `return_to`.

Each guard is a pure function from a context to a `Step`:
- `Next` is `next()`;
- `Redirect` is a flash plus `res.redirect`;
- `Fail` is `next(err)` or a throw.

A route is a list of guards folded left to right (`Middleware.RunChain`),
stopping at the first that does not pass, followed by a handler that
returns the new store, the response and the calls made to the image host.
`App.HandleRequest` runs one request end to end. `Middleware.Holds` names
the fact each guard guarantees once passed. `Middleware.ChainEstablishes`
proves that, for a chain whose guards do not undo one another, every such
fact holds when the handler runs. Each handler's `requires` is implied by
what its route's guards established (`App.Handle` discharges it from
`Middleware.ChainEstablishes`).

Collaborators outside the core are answers supplied in `Context.Env`:
- the ids the store cannot cast to an ObjectId;
- the id the store assigns to a new document;
- the upload result: the stored files, an upload error, or a request that
  is not `multipart/form-data`, which the upload middleware passes on with
  `req.files` left undefined;
- Passport's authentication, registration, login and logout results.

Points where the model follows the code's actual behaviour:
- Joi's `validate` runs with its default early abort, so a rejected body
  reports only its first violation. The 400 message is that violation alone;
  the `join(", ")` in the guards never has more than one part
  (`Middleware.ValidationMessage` states both modes).
- Joi object schemas are closed by default: a body with a key the schema
  does not declare, at either level, is rejected with 400. A form therefore
  cannot smuggle in an `author` or any other field
  (`ValidationSchemas.UnknownRestaurantKeyReported`).
- `price` and `rating` are declared `Joi.number()` with no integer
  constraint, so they are modelled as reals and a rating of 2.5 is accepted.
- `Joi.number()` also rejects, before any `min` or `max` rule, a number
  beyond `Number.MAX_SAFE_INTEGER` in magnitude, with `must be a safe number`
  (`ValidationSchemas.UnsafePriceReported`).
- The terminal handler defaults the status to 500 only when `statusCode` is
  absent. It replaces the message only when it is missing or empty.
- When an author guard finds no resolved restaurant it flashes, then throws
  while building the redirect path (`res.locals.restaurant._id`). Every route
  resolves the restaurant first, so this branch cannot be reached through a
  route (`App.Chain`).

## Model

| member | source | states |
|---|---|---|
| ExpressErrors.ExpressError | utils/express-error.js:2-30 | the status code and the message are stored exactly as passed: no default, no range check, an empty message stays empty |
| ValidationSchemas.NotAllowed | utils/validation-schemas.js:6-13 | one "is not allowed" message per undeclared key, naming each such key under its full path |
| ValidationSchemas.Undeclared | utils/validation-schemas.js:6-13 | an object has no "is not allowed" violation exactly when every key it holds is declared by its schema, and each undeclared key is named |
| ValidationSchemas.Wrapped | utils/validation-schemas.js:6-13 | the outer schema is satisfied exactly when the body is an object whose only key is the schema's key, holding an object that satisfies the nested schema |
| ValidationSchemas.RestaurantFieldViolations | utils/validation-schemas.js:7-12 | the nested restaurant object has no violation exactly when title, location and description are non-empty strings, price is a safe number (at most 2^53 - 1) of at least 0, and no other key is present |
| ValidationSchemas.RestaurantViolations | utils/validation-schemas.js:6-13 | a body has no violation exactly when it carries only a `restaurant` object with non-empty string title, location and description, a safe number price (at most 2^53 - 1) of at least 0, and nothing else |
| ValidationSchemas.RestaurantRoundTrip | utils/validation-schemas.js:6-13 | a form built from field values passes the schema exactly when the values are valid, and then decodes back to the same values |
| ValidationSchemas.MissingRestaurantFieldReported | utils/validation-schemas.js:8-11 | each of the four required fields, when missing, is reported with its own "is required" message |
| ValidationSchemas.UnsafePriceReported | utils/validation-schemas.js:10 | a price above `Number.MAX_SAFE_INTEGER` makes the body invalid and is reported as `"restaurant.price" must be a safe number`, whatever the other fields hold |
| ValidationSchemas.UnknownRestaurantKeyReported | utils/validation-schemas.js:6-13 | a key the schema does not declare, next to `restaurant` or inside it (an `author`, say), makes the body invalid and is reported as not allowed under its full path |
| ValidationSchemas.ReviewFieldViolations | utils/validation-schemas.js:16-19 | the nested review object has no violation exactly when rating is a number in [1, 5], body is a non-empty string, and no other key is present |
| ValidationSchemas.ReviewViolations | utils/validation-schemas.js:15-20 | a body has no violation exactly when it carries only a `review` object with a number rating in [1, 5], a non-empty string body, and nothing else |
| ValidationSchemas.ReviewRoundTrip | utils/validation-schemas.js:15-20 | a review form passes exactly when its rating is in [1, 5] and its body is non-empty, and decodes back to the same values |
| ValidationSchemas.FractionalRatingAccepted | utils/validation-schemas.js:17 | a rating of 2.5 passes: no integer constraint is declared |
| ValidationSchemas.Reported | utils/middleware-functions.js:43-49 | the reported details are empty exactly when there is no violation; under early abort they are the first violation alone, otherwise all of them |
| Base.JoinFragment | utils/middleware-functions.js:49 | every detail message appears whole, at its computed offset, in the joined message |
| Middleware.ValidationMessage | utils/middleware-functions.js:41-55 | the 400 message is exactly the first violation under early abort; with all details reported, every violation appears in it |
| Middleware.IsLoggedIn | utils/middleware-functions.js:8-25 | passes, changing nothing, exactly when a user is logged in; otherwise records the original url in the session, adds the login prompt to the error flashes and redirects to `/login` |
| Middleware.StoreReturnTo | utils/middleware-functions.js:33-39 | always passes and never touches the session; copies `return_to` into the locals only when it is set and non-empty |
| Middleware.ValidateRestaurant | utils/middleware-functions.js:41-55 | passes exactly when the body satisfies the restaurant schema; otherwise fails with status 400 and the first violation, leaving the context unchanged |
| Middleware.ValidateReview | utils/middleware-functions.js:96-105 | passes exactly when the body satisfies the review schema; otherwise fails with status 400 and the first violation |
| Middleware.IsExistingRestaurant | utils/middleware-functions.js:57-82 | three outcomes by the id: a malformed id is forwarded as an error without status, an absent one flashes "Couldn't find that restaurant!" and redirects to `/restaurants`, a found one is put in the locals and passes |
| Middleware.IsExistingReview | utils/middleware-functions.js:107-121 | the same three outcomes for the review id, with "Couldn't find that review!" and the review put in the locals |
| Middleware.Deny | utils/middleware-functions.js:87-90 | the permission flash is always added; the result is a redirect to the resolved restaurant's page exactly when one is resolved, otherwise the TypeError of reading `_id` of undefined |
| Middleware.IsRestaurantAuthor | utils/middleware-functions.js:84-94 | passes, unchanged, exactly when a user is logged in, a restaurant is resolved and its author is that user; otherwise denies |
| Middleware.IsReviewAuthor | utils/middleware-functions.js:123-131 | passes exactly when a user is logged in, a review is resolved and its author is that user; otherwise denies using the resolved restaurant |
| Middleware.Upload | routes/restaurants.js:10-20 | forwards the upload error; otherwise passes, with `req.files` set to the stored files for a multipart request and left undefined for any other |
| Middleware.Authenticate | routes/users.js:50-58 | a success replaces the session with a fresh one holding the user; a rejection flashes the strategy's message and redirects to `/login`; an error is forwarded |
| Middleware.RunChainAppend | routes/restaurants.js:101-102 | running two guard lists back to back is running the first, then the second on what the first passed on |
| Middleware.StopIsFirstStoppingGuard | routes/restaurants.js:114-115 | a stopped chain's result is the result of its first stopping guard, applied to what the guards before it passed on |
| Middleware.ChainEstablishes | routes/restaurants.js:96-97 | when a chain of mutually compatible guards passes, every guard's fact holds of the context handed to the handler |
| Models.Pull | routes/reviews.js:40-41 | `$pull` removes every occurrence of the id and keeps every other id with its multiplicity |
| Models.PullAppend | routes/reviews.js:40-41 | pulling distributes over concatenation, so the remaining ids keep their order |
| Models.PullAbsent | routes/reviews.js:40-41 | pulling an id the list does not hold leaves the list unchanged |
| Models.DestroyCalls | models/restaurant.js:76-79 | one destroy call per image, in image order, keyed by the file name and with invalidation on |
| Models.AfterDelete | models/restaurant.js:69-81 | the hook does nothing for a null document; otherwise it removes exactly the listed reviews, keeps the others unchanged, and its effects are exactly the bulk review delete followed by one destroy call per image, in image order, naming each image's file name with invalidation on |
| Models.FindByIdAndDelete | models/restaurant.js:65-81 | the restaurant is gone; when it existed, its listed reviews are gone and the effects are the review delete followed by the image destroys |
| Context.OriginalUrl | utils/middleware-functions.js:16-18 | the url recorded for the return trip is a slash, every path segment from the root (mount prefix included) joined by slashes, then the query string |
| Context.PathText | utils/middleware-functions.js:16-18 | a non-empty path is written as a slash followed by its segments joined with slashes |
| Context.Page | routes/users.js:9-11 | a page that only renders hands its view the given data and leaves the store, the session and the locals as they were, calling nothing on the image host |
| RestaurantRoutes.Index | routes/restaurants.js:22-33 | the index lists every stored restaurant and only stored restaurants, and writes nothing |
| RestaurantRoutes.Show | routes/restaurants.js:72-99 | the detail page and the edit form render the restaurant the chain resolved, and write nothing |
| RestaurantRoutes.ImagesOf | routes/restaurants.js:56-57 | one image per uploaded file, in upload order, with url the file's path and file name its filename |
| RestaurantRoutes.Create | routes/restaurants.js:42-69 | saves, under the fresh id, a restaurant with the decoded fields, the user as author, the uploaded images and no reviews; every other document is kept; an undefined `req.files` raises the `map` TypeError before anything is saved, and a fresh id already in use raises instead |
| RestaurantRoutes.WithFields | routes/restaurants.js:104-105 | an update writes the four form fields and keeps the id, author, images and reviews |
| RestaurantRoutes.Update | routes/restaurants.js:101-112 | only the restaurant at the url's id changes, and it receives the form fields; redirect to its page with the update flash |
| RestaurantRoutes.Delete | routes/restaurants.js:114-124 | the store after the handler is the store after `findByIdAndDelete` and its hook; redirect to `/restaurants` with the delete flash |
| ReviewRoutes.Create | routes/reviews.js:14-33 | the new review id is appended to the resolved restaurant's list, and the review, authored by the user, is stored under it; a review id in use raises after the restaurant was saved |
| ReviewRoutes.Delete | routes/reviews.js:35-50 | the review record is deleted and the restaurant at the url's id gets its list pulled; every other restaurant is kept |
| UserRoutes.Register | routes/users.js:13-42 | a refused registration flashes its message and redirects to `/register` with the session's user unchanged; a success logs the user in with a fresh session and redirects to `/restaurants`; a login error is forwarded |
| UserRoutes.LoggedIn | routes/users.js:50-62 | a completed login keeps the user the chain logged in, appends the welcome-back message to the success flashes, writes nothing, and redirects to the recorded url when it is non-empty, else to `/restaurants` |
| UserRoutes.AfterLogin | routes/users.js:61 | a successful login goes to the recorded url when it is set and non-empty, else to `/restaurants` |
| UserRoutes.Logout | routes/users.js:64-75 | a successful logout empties the session, flashes the goodbye and redirects to `/restaurants`; an error is forwarded |
| App.Match | app.js:205-211 | a request reaches a declared route only with that route's path and method, or with HEAD on a path declared for GET, and every id it binds is a non-empty segment; everything else reaches the catch-all |
| App.EmptyIdNotFound | app.js:205-211 | a path under `/restaurants` whose `:id` or `:review_id` segment is empty matches no route and reaches the catch-all |
| App.NewFormUrl | routes/restaurants.js:36 | the new-restaurant form's original url is `/restaurants/new` followed by the query, mount prefix kept |
| App.MatchPathOf | app.js:205-211 | each declared route is reached by its own method and path, except that `/restaurants/new` is taken by the form before `/:id` sees it |
| App.NotFoundOnlyWhenUnmatched | app.js:220-222 | the catch-all is reached only by requests that no declared route's method and path match, for routes whose ids are non-empty |
| App.Chain | routes/reviews.js:14-36 | every route's guard list is ordered so that no guard undoes an earlier one, and the author guards always come after the login gate and the restaurant lookup |
| App.Prelude | app.js:180-198 | both flash lists are drained into the locals, the current user is exposed, and the session keeps no flash |
| App.ErrorResponse | app.js:226-240 | the status is the error's status or 500 when it has none; the message is kept when non-empty, else replaced by "Oh No, Something Went Wrong!" |
| App.Handle | routes/restaurants.js:22-124 | only the five writing routes change the store, only the restaurant delete calls the image host, and no handler answers with an error page of its own: errors are forwarded |
| App.HandleRequest | app.js:205-240 | an unmatched request becomes a 404 "Page Not Found!" page with the store untouched and the flash drained; non-writing routes leave the store as it was; only the restaurant delete calls the image host; every error page carries a non-empty message and makes no image-host call |
| RequestProperties.OwnerGuardsOutcome | routes/restaurants.js:96-97 | the five outcomes of login, lookup and ownership: login redirect, forwarded cast error, not-found redirect, permission denial to the restaurant's page, or a pass with the restaurant resolved |
| RequestProperties.NonOwnerIsDenied | routes/restaurants.js:96-115 | a logged-in non-author is sent to the restaurant's page with the permission flash by edit, update and delete, and nothing is written or destroyed |
| RequestProperties.OwnerRoutesPassExactly | routes/restaurants.js:96-115 | edit, update and delete reach their handlers exactly when the user is logged in, the restaurant exists and the user is its author (and, for update, the form is valid) |
| RequestProperties.OwnerDeleteCascades | routes/restaurants.js:114-124 | the owner's delete removes the restaurant and its listed reviews, destroys every image in order after the review delete, and redirects to the index |
| RequestProperties.OwnerUpdateWrites | routes/restaurants.js:101-112 | the owner's valid update rewrites only the four form fields of that restaurant |
| RequestProperties.StoppedChainWritesNothing | routes/restaurants.js:42-43 | a request whose chain stops writes nothing and calls nothing on the image host |
| RequestProperties.HandleKeepsStore | routes/reviews.js:14-50 | every handler run after its chain passed keeps each document under its own id and never changes a restaurant's author |
| RequestProperties.StoreInvariantsKept | routes/restaurants.js:42-124 | no request stores a document under a foreign id or reassigns a restaurant's author |
| RequestProperties.GateRecordsReturnTo | utils/middleware-functions.js:12-21 | on every route that starts with the login gate, an anonymous request is redirected to `/login` with the original url recorded and the login prompt flashed, and nothing is written |
| RequestProperties.NewFormRecordsFullUrl | utils/middleware-functions.js:12-21 | an anonymous visit to the new-restaurant form records `/restaurants/new` plus the query as the return url, not the router-relative `/new` |
| RequestProperties.NewFormForLoggedIn | routes/restaurants.js:36-38 | the new-restaurant form is guarded by login alone, and rendering it writes nothing |
| RequestProperties.IndexListsStore | routes/restaurants.js:22-33 | the index needs no login, lists every stored restaurant and nothing else, and writes nothing |
| RequestProperties.OwnerEditFormShowsDocument | routes/restaurants.js:96-99 | the author's edit form shows the stored document at the url's id, and nothing is written |
| RequestProperties.ShowNeedsNoLogin | routes/restaurants.js:72-94 | a detail page depends only on the id: malformed gives the cast error page, absent gives the not-found redirect, present renders the stored document; never a login redirect |
| RequestProperties.LoginOutcome | routes/users.js:50-62 | a successful login goes to the recorded url (or the index) and leaves a fresh session without it; a rejection goes back to `/login` with the message and keeps the recorded url |
| RequestProperties.ReturnToUsedOnce | utils/middleware-functions.js:8-39 | after being turned away from a guarded page, a successful login returns to exactly that url, and the next successful login goes to the index |
| RequestProperties.UnmatchedIs404 | app.js:220-222 | a request no route declares becomes a 404 "Page Not Found!" page |
| RequestProperties.InvalidRestaurantIs400 | utils/middleware-functions.js:41-55 | a logged-in create with an invalid form, multipart or not, reaches the client as 400 with the first violation, and nothing is stored |
| RequestProperties.MalformedIdIs500 | utils/middleware-functions.js:79-81 | a restaurant id the store cannot cast reaches the client as 500 with the cast message |
| RequestProperties.CreateRestaurantSaves | routes/restaurants.js:42-69 | a valid multipart create saves a restaurant authored by the user with the uploaded images in order, keeps every other document, and redirects to the new page with the creation flash |
| RequestProperties.UrlencodedCreateIs500 | routes/restaurants.js:42-69 | a logged-in user's valid create sent without `multipart/form-data` passes every guard, but mapping the undefined `req.files` throws: the client gets a 500 with the TypeError's message, and nothing is stored |
| RequestProperties.CreateReviewAppends | routes/reviews.js:14-33 | a valid review grows the restaurant's list by exactly the new id at the end, keeps earlier entries, and stores the review authored by the user |
| RequestProperties.DuplicateReviewIdLeavesDanglingRef | routes/reviews.js:25-26 | when the review save fails, the restaurant save has already happened: the list holds an id with no stored review, and the client gets a 500 |
| RequestProperties.RegisterOutcome | routes/users.js:13-42 | registration outcomes at the request level: refusal back to the form with its message, success logged in at the index, login error as an error page; nothing is stored by the model |
| RequestProperties.LogoutOutcome | routes/users.js:64-75 | logout ends the session and goes to the index, or shows the logout error |
| RequestProperties.ReviewDeletePassesExactly | routes/reviews.js:35-36 | review deletion reaches its handler exactly when the user is logged in, both documents exist and the user wrote the review |
| RequestProperties.ReviewDeletePulls | routes/reviews.js:35-50 | the review author's delete removes the record, pulls every occurrence of its id from the url's restaurant (a no-op when it is not listed) and changes nothing else |
| RequestProperties.ForeignUrlLeavesDanglingRef | routes/reviews.js:40-43 | membership is not checked: deleting through another restaurant's url removes the record but leaves the id in the restaurant that lists it |

## Left out

- MongoDB itself: connection, query execution and ObjectId parsing. Malformed ids are a set of ids the store refuses with a cast error. New ids come as a given value.
- Store writes never fail in the model, except for inserting under an id already in use.
- Passport internals: password hashing, session serialisation and the strategy. Authentication, registration, `req.login` and `req.logout` are given results. A successful login or logout yields a fresh session.
- Multer and Cloudinary: uploads are a given result, so images uploaded for a form that then fails validation are not tracked. Destroy calls are logged as effects, and their failures are not modelled.
- Joi internals: coercion of form strings to numbers.
- ValidationSchemas.NotAllowed: Joi names undeclared keys in the order the body lists them; a parsed body is a map without order, so the model names them in lexicographic order. Under early abort, when several keys are undeclared, the one named may differ.
- Routing details: case-insensitive and trailing-slash matching, query parsing, and the `_method` override (the request carries the effective method).
- OPTIONS: Express answers an OPTIONS request for a path a router declares with 200 and an `Allow` header. The model treats OPTIONS like any other undeclared method, so it reaches the 404 catch-all.
- HEAD: the model answers it with the GET route's response; dropping the body is left to the HTTP layer.
- EJS rendering, `populate`, static files, cookies and the session store: a rendered page is its view name and the data handed to it.
- The order of the index list (the model hands the view a set of documents), and the seeding script.
- models/user.js: uniqueness of username and email is enforced by the database and the Passport plugin, so it arrives as a registration refusal.
- Concurrency: requests are handled one at a time; interleaving across awaits is not modelled.
- Middleware.RunChain: its contract states only that the guards change nothing in the request except `req.files`; what a passed chain guarantees is stated by Middleware.ChainEstablishes.
