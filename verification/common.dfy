/** Shared vocabulary: optional values and the JavaScript notion of a
    "truthy" optional string, which the handlers use for every presence test. */
module Common {

  /** A value that may be absent (`undefined` / `null` in the source). */
  datatype Option<+T> = None | Some(value: T)

  /** `!!x` for an optional string: present and not the empty string. */
  predicate Truthy(o: Option<string>)
  {
    o.Some? && o.value != ""
  }

  /** `a || b` on optional strings: `a` when truthy, otherwise `b` as it is. */
  function Or(a: Option<string>, b: Option<string>): (r: Option<string>)
    ensures Truthy(r) <==> Truthy(a) || Truthy(b)
    ensures Truthy(a) ==> r == a
    ensures !Truthy(a) ==> r == b
  {
    if Truthy(a) then a else b
  }

  /** The process environment the search code falls back to
      (`GOOGLE_API_KEY`, `GOOGLE_CX`). */
  datatype Env = Env(apiKey: Option<string>, cx: Option<string>)
}
