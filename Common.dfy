/** Shared value types of the static-page cache backend model. */
module Common {

  /** One octet of cached content; PHP strings are byte strings. */
  newtype byte = x: int | 0 <= x < 256

  /** Cached content: an opaque byte string. */
  type Bytes = seq<byte>

  datatype Option<+T> = None | Some(value: T)

  /** The exceptions the backend throws, one constructor per message, and the one DirectoryIterator throws. */
  datatype CacheError =
    | InvalidCacheId     // "Invalid cache id: does not match expected public_dir path"
    | NoTagsDefined      // "Cannot use tag matching modes as no tags were defined"
    | InvalidCleanMode   // "Invalid mode for clean() method"
    | MissingInnerCache  // "An Inner Cache has not been set; use setInnerCache()"
    | InvalidIdOrTag     // "Invalid id or tag ... : must be a valid URL path"
    | NotADirectory      // UnexpectedValueException from DirectoryIterator on a regular file

  /** A PHP call that either returns a value or throws. */
  datatype Result<+T> = Success(value: T) | Failure(error: CacheError)

  /** PHP's empty() on a string: true for "" and for "0". */
  predicate PhpEmpty(s: string)
  {
    s == "" || s == "0"
  }
}
