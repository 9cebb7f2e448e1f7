/** Result and error values shared by the modules of the model. Each error
    constructor stands for the Python exception the source raises there. */
module Wrappers {

  datatype Option<+T> = None | Some(value: T)

  /** The exceptions of the modelled code. */
  datatype Error =
    | BooleanIndexMismatch   // IndexError: a boolean mask whose length differs from the array
    | EmptyBatch             // ValueError: max() of an empty list of peptide lengths
    | ColumnOutOfBounds      // IndexError: a column index past the width of the P matrix
    | ResidueNotInAlphabet   // ValueError: tuple.index of a letter that is not in aas

  datatype Result<+T> = Ok(value: T) | Err(error: Error)
}
