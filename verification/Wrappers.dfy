/** The two-case type used wherever the program has `null` or `undefined`. */
module Wrappers {

  datatype Option<+T> = None | Some(value: T)

  /** `s ?? ""`. */
  function OrEmpty(s: Option<string>): string { if s.Some? then s.value else "" }
}
