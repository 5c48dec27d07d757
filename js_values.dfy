/**
  The few JavaScript value notions the authentication server relies on:
  an optional value (what `Array.prototype.find` and a property lookup
  return) and the fields of a JSON request body together with the
  truthiness test the route handlers apply to them.
 */
module JsValues {

  /**
    An optional value. `None` stands for JavaScript's `undefined` result of
    a failed search, for a `users` property that is not an array, and for
    a `save` whose push threw.
   */
  datatype Option<+T> = None | Some(value: T)

  /**
    A field read out of a parsed JSON request body: absent from the body
    (`undefined`), explicitly `null`, or a string. Numbers, booleans and
    nested objects are not modelled.
   */
  datatype Field = Undefined | Null | Str(s: string)

  /**
    JavaScript truthiness of a field: only a non-empty string is truthy,
    so `!field` holds for `undefined`, `null` and `""`.
   */
  predicate Truthy(f: Field): (truthy: bool)
    ensures !truthy <==> f == Undefined || f == Null || f == Str("")
  {
    f.Str? && f.s != ""
  }

  /** A request body as destructured by `const { username, email, password } = req.body`. */
  datatype Body = Body(username: Field, email: Field, password: Field)
}
