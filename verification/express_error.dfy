/** The errors that reach the terminal error handler. JavaScript errors are
    duck-typed: the handler reads an optional `statusCode` and a `message`
    that may be missing or empty (both written "" here). */
module ExpressErrors {
  import opened Base

  datatype Error = Error(statusCode: Option<int>, message: string)

  /** `new ExpressError(statusCode, message)`: the base `Error` is built
      without a message, then both fields are assigned exactly as passed. */
  function ExpressError(statusCode: int, message: string): (e: Error)
    ensures e.statusCode == Some(statusCode)
    ensures e.message == message
  {
    Error(Some(statusCode), message)
  }

  /** The TypeError thrown by `res.locals.restaurant._id` when no restaurant
      was resolved: a plain error with no status code. */
  const ReadIdOfUndefined: Error :=
    Error(None, "Cannot read properties of undefined (reading '_id')")

  /** The TypeError thrown by `req.files.map(...)` when the upload
      middleware left `req.files` undefined. */
  const ReadMapOfUndefined: Error :=
    Error(None, "Cannot read properties of undefined (reading 'map')")

  /** The CastError Mongoose raises when an id cannot be cast to an ObjectId. */
  function CastError(id: Id, model: string): (e: Error)
    ensures e.statusCode.None? && e.message != ""
  {
    Error(None, "Cast to ObjectId failed for value \"" + id + "\" (type string) at path \"_id\" for model \"" + model + "\"")
  }

  /** The error MongoDB raises when an insert reuses an existing `_id`. */
  function DuplicateKeyError(id: Id): (e: Error)
    ensures e.statusCode.None? && e.message != ""
  {
    Error(None, "E11000 duplicate key error dup key: { _id: " + id + " }")
  }
}
