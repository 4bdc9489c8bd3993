/** The nullable references of the builder (`_face`, `_loop`, `he.loop`,
    `face.surface`) and the optional arguments of its API. */
module Wrappers {

  datatype Option<+T> = None | Some(value: T)
}
