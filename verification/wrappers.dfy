/** The optional-value datatype shared by the other modules: it stands for
    Python's `None` where the program uses it as "no value yet". */
module Wrappers {

  datatype Option<+T> = None | Some(value: T)
}
