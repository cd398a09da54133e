/** The optional value shared by the modules of this model (`null`/`undefined` in the plugin). */
module Wrappers {

  datatype Option<+T> = None | Some(value: T)

}
