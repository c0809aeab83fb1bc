/** Optional values, standing for the `null`/`undefined` results of DOM lookups
    (`querySelector`, `getAttribute`, `closest`) and for the optional fields of a
    comment record. */
module Options {

  datatype Option<+T> = None | Some(value: T)

  /** JavaScript truthiness of a `string | undefined`: present and non-empty. */
  predicate Present(o: Option<string>) {
    o.Some? && o.value != ""
  }

  /** The value of `o || fallback` for a `string | null` operand. */
  function OrElse(o: Option<string>, fallback: string): string {
    if Present(o) then o.value else fallback
  }
}
