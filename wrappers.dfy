/** Optional values, for the editor's "maybe a command" and "maybe a completion". */
module Wrappers {

  datatype Option<+T> = None | Some(value: T)
}
