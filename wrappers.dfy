/** The optional-value wrapper shared by every module of the model: a JavaScript
    `null`/`undefined` or a missing key is `None`. */
module Wrappers {

  datatype Option<+T> = None | Some(value: T)

  /** JavaScript truthiness of an optional string: `null`, `undefined` and
      the empty string are falsy. */
  predicate Truthy(s: Option<string>)
  {
    s.Some? && s.value != ""
  }
}
