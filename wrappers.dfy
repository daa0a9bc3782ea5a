/** The optional value used for the nullable state of the form (`string | null`)
    and for the result of a catalog lookup (`find` may return `undefined`). */
module Wrappers {
  datatype Option<+T> = None | Some(value: T)
}
