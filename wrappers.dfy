/** The optional values of the source (`field?: T`, `T | null`, the result of `find`). */
module Wrappers {

  datatype Option<+T> = None | Some(value: T) {

    /** `x ?? fallback` */
    function OrElse(fallback: Option<T>): Option<T>
    {
      if Some? then this else fallback
    }
  }
}
