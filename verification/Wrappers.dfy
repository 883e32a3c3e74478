/** Option: what stands for a null pointer, an empty std::optional or an uninitialised result. */
module Wrappers {
  datatype Option<+T> = None | Some(value: T)
}
