/**
 * The exceptions the core raises, one constructor per distinct failure. Messages are
 * not modelled; the constructor says which `throw` (or which storage error) it stands for.
 */
module Errors {
  datatype Failure =
    | RowMissing                // "Newspaper not found while incrementing." / "... during refresh."
    | NotSequence               // "Cutover applicable to sequence newspapers only."
    | MissingLatestId           // a sequence paper with a null local_latest_id
    | MissingPattern(slug: string)  // "Newspaper <slug> is missing a pattern."
    | MissingBaseUrl            // "Sequence newspapers require a base URL or pattern."
    | UnsupportedType           // "Unsupported newspaper type."
    | DuplicateSlug             // the UNIQUE constraint on `slug` refuses an INSERT
    | StorageFailure            // any other PDOException raised by the database
}
