/** Option and Result values shared by every module of the model. */
module Wrappers {

  /** `nil` in Ruby, `null` in C#. */
  datatype Option<+T> = None | Some(value: T)

  /** A computation that either returns a value or raises the named error. */
  datatype Result<+T, +E> = Ok(value: T) | Raise(error: E)
}

/**
 * The errors the modelled code raises: Dependabot's own error classes and the
 * Ruby and Sorbet exceptions (`ArgumentError`, `NoMethodError`, `RuntimeError`,
 * `SystemStackError`, `TypeError`) that escape from it.
 */
module Errors {
  datatype DependabotError =
    | AllVersionsIgnored
    | ArgumentError(message: string)
    | DependencyFileNotParseable(fileName: string, message: string)
    | DependencyFileNotEvaluatable(message: string)
    | DependencyFileNotResolvable(message: string)
    | InvalidStrategy(message: string)
    | NoMethodError
    | RuntimeError(message: string)
    | SystemStackError
    | TypeError(message: string)
    | YamlSyntaxError
}
