/** The exceptions the indexing engine raises, as values. */
module Errors {
  import opened Labels

  datatype Error =
    /** ErrorInitIndex: a construction argument is rejected. */
    | ErrorInitIndex(message: string)
    /** ErrorInitIndexNonUnique raised by a flat index: the number of
        non-unique values and up to ten of the most frequent of them. */
    | NonUniqueLabels(count: nat, examples: seq<Label>)
    /** ErrorInitIndexNonUnique raised by a hierarchy: the number of rows
        that repeat an earlier row, and the first such row. */
    | NonUniqueRows(count: nat, first: seq<Label>)
    /** KeyError naming the (first) label that was not found. */
    | KeyError(missing: Label)
    | LocInvalid
    | TypeError
    | IndexError
    | ValueError(message: string)
    | RuntimeError(message: string)
    | NotImplementedError
    | ZeroDivisionError
    /** Raised by the block store when the depths hold different numbers of rows. */
    | ErrorInitTypeBlocks

  datatype Result<T> = Ok(value: T) | Err(error: Error)

  /** The outcome of an operation that returns nothing or raises. */
  datatype Outcome = Pass | Fail(error: Error)

  const MsgSingleString := "Cannot create an Index from a single string"
  const MsgOneLevel := "Cannot create IndexHierarchy from only one level."
  const MsgTwoLevels := "Index Hierarchies must have at least two levels!"
  const MsgDepthReference := "depth_reference must be an integer when labels are empty."
  const MsgRowDepth := "All labels must have the same depth."
  const MsgDelimited := "Could not not parse more than one label from delimited string"
  const MsgDepthLevel := "invalid depth_level"
  const MsgLevelsUnique := "depth_levels must be unique"
  const MsgLevelsNonEmpty := "depth_level must be non-empty"
  const MsgLevelsRange := "Invalid depth level found"
  const MsgSliceStep := "slice step cannot be zero"
}
