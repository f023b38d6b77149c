// The optional value shared by the page scripts and the route finder: a
// JavaScript null or undefined and a Python None are both `None` here.

module Wrappers {

  datatype Option<T> = None | Some(value: T)
}
