/** Optional record fields, and the two ways the renderer reads them. */
module Optional {

  /** A field of a decoded block record: absent (None) or present with a value. */
  datatype Option<+T> = None | Some(value: T)

  /** Python truthiness of an optional string field: present and not empty. */
  predicate Truthy(o: Option<string>) {
    o.Some? && o.value != ""
  }

  /** `record.get(key, default)`: the value when present, the default when absent. */
  function GetOr<T>(o: Option<T>, default: T): T {
    match o
    case Some(v) => v
    case None => default
  }

  /** `record.get(key) or default`: the value when truthy, the default otherwise. */
  function OrElse(o: Option<string>, default: string): string {
    if Truthy(o) then o.value else default
  }
}
