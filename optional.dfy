/** The absence indicator the index structures return on a lookup miss (Python's `None`). */
module Optional {

  datatype Option<T> = None | Some(value: T)
}
