/** Shared value types of the input layer: optional values, the load's error
    taxonomy and the failure-compatible result the decoders return. */
module Common {

  datatype Option<+T> = None | Some(value: T)

  /** A cell or coordinate value; `None` stands for the not-a-number sentinel. */
  type Val = Option<real>

  /** Every way a load can abort. */
  datatype Error =
    | FileNotFound
    | UnrecognizedFormat
    | MissingColumn(column: string)
    | ColumnCount(expected: nat, found: nat)
    | NotANumber(token: string)
    | MalformedComment
    | MissingVariable(name: string)
    | ShapeMismatch(name: string)

  datatype Result<+T> = Success(value: T) | Failure(error: Error) {
    predicate IsFailure() { Failure? }

    function PropagateFailure<U>(): Result<U>
      requires Failure?
    {
      Failure(error)
    }

    function Extract(): T
      requires Success?
    {
      value
    }
  }

  /** A non-empty sequence is its front followed by its last element. */
  lemma SplitLast<T>(xs: seq<T>)
    requires xs != []
    ensures xs == xs[..|xs| - 1] + [xs[|xs| - 1]]
  {
  }
}
