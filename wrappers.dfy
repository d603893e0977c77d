/** The nullable results of the practice widget, as an explicit option type. */
module Wrappers {

  /** `None` stands for the `null` a TypeScript helper returns; `Some(v)` for a value. */
  datatype Option<+T> = None | Some(value: T)
}
