/** The optional result the transforms return: `None` stands for the
    JavaScript `undefined` a guard clause returns. */
module Wrappers {

  datatype Option<+T> = None | Some(value: T)
}
