/** Results of the modelled Java computations. */
module Outcomes {

  datatype Option<+T> = None | Some(value: T)

  /** What a Java method call comes to: the value it returns, or `Fault` where the Java
      code throws (a null dereference, an index out of range, a failed cast, an
      unsupported operation) or never returns (a pointer walk round a cycle that it does
      not leave, a recursion without end). */
  datatype Outcome<+T> = Value(value: T) | Fault
}
