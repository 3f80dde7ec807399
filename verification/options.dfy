/** A field of an inbound event that the client may leave out. */
module Options {

  datatype Option<+T> = None | Some(value: T)

  /** JavaScript truthiness of an optional string: absent values and the empty string are falsy. */
  predicate Truthy(v: Option<string>)
    ensures v.None? ==> !Truthy(v)
    ensures v == Some("") ==> !Truthy(v)
    ensures v.Some? && |v.value| > 0 ==> Truthy(v)
  {
    v.Some? && v.value != ""
  }
}
