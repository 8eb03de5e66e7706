/** Small shared vocabulary: optional values and JavaScript truthiness. */
module Common {

  /** A value that may be `undefined`/`null` (None) or present (Some). */
  datatype Option<+T> = None | Some(value: T)

  /** Truthiness of an optional JavaScript number: `undefined`, `null` and `0`
      are falsy, every other number is truthy. */
  predicate Truthy(n: Option<int>)
  {
    n.Some? && n.value != 0
  }
}
