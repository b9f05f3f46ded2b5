/** The optional value of the geometry kernel: a result that is either
    present or absent ("undetermined"). */
module Wrappers {

  datatype Option<+T> = None | Some(value: T)

}
