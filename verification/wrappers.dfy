/** The absent-versus-present marker the solvers use where the Java methods return `null`. */
module Wrappers {

  /** `None` stands for a `null` result; `Some(v)` for a real one, which may itself be empty. */
  datatype Option<+T> = None | Some(value: T)
}
