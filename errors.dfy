/** The failures the article service and its store report to their callers. */
module Errors {

  datatype Error =
      /** No stored article has this id (ArticleNotFoundException). */
    | NotFound(id: string)
      /** A write was refused by bean validation; the message is the validator's. */
    | ValidationError(message: string)
      /** An insert named an id that is already stored (the store's duplicate-key error). */
    | DuplicateKey(id: string)
      /** A lookup was given a null id (the store's IllegalArgumentException). */
    | MissingId
}
