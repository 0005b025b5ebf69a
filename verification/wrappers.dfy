/** The usual Some/None datatype, used here for values a browser or WordPress may not supply:
    a `parseInt` that yields NaN, a stock quantity that is null. */
module Wrappers {

  datatype Option<+T> = None | Some(value: T)
}
