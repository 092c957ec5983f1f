/** The optional value that the parser and the interpreter return: a bare
    `None` stands for every failure, as in the Rust `Option`. */
module Wrappers {
  datatype Option<+T> = None | Some(value: T)
}
