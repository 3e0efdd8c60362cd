/** The optional result of one mesh's pan step (`Recycling.Step`): `None` when the mesh is dropped. */
module Wrappers {

  /** An optional value: `None` when there is nothing, `Some(v)` otherwise. */
  datatype Option<+T> = None | Some(value: T)
}
