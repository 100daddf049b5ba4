/** Option and Result, and the failure kinds the library signals with exceptions. */
module Wrappers {

  /** `None` stands for Java's `null` wherever the library accepts or produces it. */
  datatype Option<+T> = None | Some(value: T)

  /** The exceptions the library throws, by the condition that triggers them. */
  datatype Error =
    | InvalidName          // a name that is present but blank
    | EmptyLabels          // an array index with no labels
    | NullLabel            // a null label among an array index's labels
    | DuplicateLabels      // a label repeated within an array index
    | ZeroStep             // a numeric index with step 0
    | InconsistentStep     // a numeric index whose step points away from its end
    | EmptyRange           // a numeric index whose progression has no term
    | OutOfRange           // a position outside [0, size)
    | NoSuchElement        // next() on an exhausted iterator
    | SizeMismatch         // sizes that must agree do not
    | LabelNotFound        // a label-based lookup that misses
    | OverlappingLabels    // stacking onto indices that share a label
    | EmptyColumns         // a table built from no columns
    | IndexMismatch        // a column whose labels differ from the table's row index
    | DuplicateColumnName  // two columns of one table with the same name
    | ColumnNotFound       // a cell lookup naming a column the table lacks
    | NullColumn           // a column transformation that returns null

  datatype Result<+T> = Success(value: T) | Failure(error: Error)
}
