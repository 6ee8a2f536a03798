/** Small failure-carrying datatype shared by the modules of this project. */
module Wrappers {

  /** A value that may be missing; `None` also stands for an exception the
      modelled Python code raises instead of returning a value. */
  datatype Option<+T> = None | Some(value: T)
}
