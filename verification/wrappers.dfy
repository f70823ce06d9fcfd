/** Option and Result: the model's stand-ins for Java's null and for thrown exceptions. */
module Wrappers {

  /** A value or Java's null. */
  datatype Option<+T> = None | Some(value: T)

  /** A value, or the exception that Java would have thrown instead. */
  datatype Result<+T, +E> = Ok(value: T) | Err(error: E) {

    predicate IsFailure() {
      Err?
    }

    function PropagateFailure<U>(): Result<U, E>
      requires Err?
    {
      Err(error)
    }

    function Extract(): T
      requires Ok?
    {
      value
    }
  }
}

/** The exceptions the engine's core can raise, one constructor per kind. */
module Errors {

  datatype Error =
    | ColumnNotFound(column: string)    // "Column not found ..." (RuntimeException / IllegalArgumentException)
    | IndexOutOfBounds(index: int)      // List.get or String.substring with a bad index
    | InvalidComparison                 // Tuple.compareTo's IllegalArgumentException
    | NumberFormat(text: string)        // Integer.parseInt / Long.parseLong / Double.parseDouble
    | UnsupportedExpression             // an expression kind the join evaluator does not handle
    | NotBoolean                        // a join condition whose value is not a boolean
    | ClassCast                         // a cast or compareTo between Long/Integer/Boolean that fails
    | NullPointer                       // unboxing a null column index
}
