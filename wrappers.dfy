/** The optional value used for JavaScript's `undefined`, query parameters that
    may be absent, and lookups that may find nothing. */
module Wrappers {

  datatype Option<+T> = None | Some(value: T)

  /** JavaScript truthiness of a value that is either a string or `undefined`:
      only a present, non-empty string is truthy. */
  predicate Truthy(o: Option<string>) {
    o.Some? && o.value != ""
  }
}
