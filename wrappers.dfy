/** The optional value used wherever the widget can have "no value": a NaN from
    parseInt, an absent bug tick, or no pending timer. */
module Wrappers {

  datatype Option<+T> = None | Some(value: T)
}
