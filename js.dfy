/**
 * Values as the two components see them once JSON has been parsed: a
 * property may be missing (`undefined` or `null`), and the `||` operator
 * falls back on a default whenever its left operand is falsy.
 */
module JsValues {

  /** A property that may be absent (`undefined` or `null` in JavaScript). */
  datatype Option<+T> = None | Some(value: T)

  /** JavaScript truthiness of an optional string: present and not "". */
  predicate Truthy(o: Option<string>)
  {
    o.Some? && o.value != ""
  }

  /** The expression `o || d` where `o` is an optional string. */
  function OrElse(o: Option<string>, d: string): (r: string)
    ensures Truthy(o) ==> r == o.value
    ensures !Truthy(o) ==> r == d
  {
    if Truthy(o) then o.value else d
  }

  /** `o || ""` is the string itself whenever one is present. */
  lemma OrElseEmpty(o: Option<string>)
    ensures OrElse(o, "") == if o.Some? then o.value else ""
  {
  }
}
