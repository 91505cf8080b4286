/** The optional value used wherever the source can fail to produce one
    (a JSON.parse that throws, an absent storage key). */
module Wrappers {

  datatype Option<+T> = None | Some(value: T)
}
