/** Shared vocabulary: optional values and the JavaScript truthiness rules the
    screens rely on when they write `if (!token)` or `x || fallback`. */
module Common {

  /** A value that may be absent (`null` / `undefined` in the application). */
  datatype Option<+T> = None | Some(value: T)

  /** `!!s` for a nullable string: absent and empty strings are falsy. */
  predicate TruthyString(s: Option<string>) {
    s.Some? && s.value != ""
  }

  /** `!!n` for a nullable number: absent values and 0 are falsy. */
  predicate TruthyNumber(n: Option<int>) {
    n.Some? && n.value != 0
  }

  /** `m || fallback` where `m` is an optional server message. */
  function MessageOr(m: Option<string>, fallback: string): (r: string)
    ensures TruthyString(m) ==> r == m.value
    ensures !TruthyString(m) ==> r == fallback
  {
    if TruthyString(m) then m.value else fallback
  }
}
