/** The nullable references of the source (a tile lookup that finds nothing, an unplaced
    instance's site, a missing device) become this Option type. */
module Wrappers {
  datatype Option<+T> = None | Some(value: T)
}
