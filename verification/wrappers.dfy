/** Optional values, for the parts of the widget that may be unset (no image loaded,
    no aspect ratio locked). */
module Wrappers {

  datatype Option<+T> = None | Some(value: T)
}
