/** Failure-carrying results shared by every part of the object store model. */
module Results {

  datatype Option<+T> = None | Some(value: T)

  /** The distinct error conditions the object store reports: one per failure of
      the modelled functions. */
  datatype Error =
    | InvalidObjectHash   // a digest that is not 40 ASCII hex characters
    | ObjectNotFound      // no file at the digest's object path
    | CorruptObject       // the stored bytes do not decompress
    | MissingHeaderNul    // a tree object without the NUL that ends its header
    | NotATree            // the header does not start with "tree "
    | MissingSpace        // a tree entry without the space after its mode
    | MissingNul          // a tree entry without the NUL after its name
    | TruncatedSha        // fewer than 20 bytes left for an entry's digest
    | InvalidTreeSha      // commit-tree given a malformed tree digest
    | InvalidParentSha    // commit-tree given a malformed parent digest

  datatype Result<+T> = Ok(value: T) | Err(error: Error)
}
