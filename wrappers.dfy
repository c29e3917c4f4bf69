/** The optional value used wherever the source returns a null pointer,
    an empty `ref_ptr` or `std::string::npos`. */
module Wrappers {

  datatype Option<+T> = None | Some(value: T)
}
