/** Query-string values as the handlers read them from `req.query`. */
module QueryString {
  import opened Wrappers

  /** A query-string value that is present and non-empty (JavaScript truthiness of a string). */
  predicate Given(v: Option<string>) {
    v.Some? && v.value != ""
  }
}
